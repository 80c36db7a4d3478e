/** The `--web` address spec of svcnet-demo and the launch decision it feeds.

    The command line takes an address spec `[host](:port)?`.  The program
    matches it against the pattern `\[([0-9a-fA-F:]+)\](:([0-9]+))?` with
    Python's `re.match`, which anchors the match at the start of the string
    but not at its end, and then calls `web(host, port)`, or `web(host)` so
    that the default port 8080 applies.  The pattern is modelled here as a
    hand-written character scan (`Match`); `IsMatch` is the independent
    reference — "the pattern matches some prefix of the string with these
    groups" — and the lemmas below show that the scan picks exactly the
    match a backtracking regex engine reports. */
module SvcnetDemo {
  import opened Wrappers

  // ---------------------------------------------------------------------------
  // Character classes and runs
  // ---------------------------------------------------------------------------

  /** The class `[0-9a-fA-F:]` of the host group. */
  predicate IsHostChar(c: char) {
    ('0' <= c <= '9') || ('a' <= c <= 'f') || ('A' <= c <= 'F') || c == ':'
  }

  /** The class `[0-9]` of the port group (ASCII digits only). */
  predicate IsDigit(c: char) {
    '0' <= c <= '9'
  }

  predicate AllHostChars(s: string) {
    forall k :: 0 <= k < |s| ==> IsHostChar(s[k])
  }

  predicate AllDigits(s: string) {
    forall k :: 0 <= k < |s| ==> IsDigit(s[k])
  }

  /** Length of the longest run of characters of `inClass` starting at `i`:
      what a greedy `[...]+` or `[...]*` consumes there. */
  function Span(s: string, i: nat, inClass: char -> bool): (n: nat)
    requires i <= |s|
    ensures i + n <= |s|
    ensures forall k :: i <= k < i + n ==> inClass(s[k])
    ensures i + n == |s| || !inClass(s[i + n])
    decreases |s| - i
  {
    if i == |s| || !inClass(s[i]) then 0 else 1 + Span(s, i + 1, inClass)
  }

  /** A run of class characters of length `k` at `i` lies inside the span. */
  lemma SpanCovers(s: string, i: nat, inClass: char -> bool, k: nat)
    requires i + k <= |s|
    requires forall m :: i <= m < i + k ==> inClass(s[m])
    ensures k <= Span(s, i, inClass)
  {
  }

  /** A run of class characters of length `k` at `i` that is not followed by
      another class character is the span. */
  lemma SpanExact(s: string, i: nat, inClass: char -> bool, k: nat)
    requires i + k <= |s|
    requires forall m :: i <= m < i + k ==> inClass(s[m])
    requires i + k == |s| || !inClass(s[i + k])
    ensures Span(s, i, inClass) == k
  {
  }

  // ---------------------------------------------------------------------------
  // Decimal digit strings: Python's `int(...)` on a `[0-9]+` capture
  // ---------------------------------------------------------------------------

  function DigitValue(c: char): (v: nat)
    requires IsDigit(c)
    ensures v < 10
  {
    (c as int) - ('0' as int)
  }

  function DigitChar(v: nat): (c: char)
    requires v < 10
    ensures IsDigit(c) && DigitValue(c) == v
  {
    (('0' as int) + v) as char
  }

  /** The value of a digit string read in base ten, most significant digit
      first; leading zeros add nothing and there is no upper bound. */
  function DecimalValue(ds: string): (v: nat)
    requires AllDigits(ds)
    ensures v == 0 <==> forall k :: 0 <= k < |ds| ==> ds[k] == '0'
  {
    if ds == [] then 0
    else DecimalValue(ds[..|ds| - 1]) * 10 + DigitValue(ds[|ds| - 1])
  }

  /** The canonical decimal text of `p`, as Python's `str(p)` writes it. */
  function Decimal(p: nat): (ds: string)
    ensures |ds| > 0 && AllDigits(ds)
    ensures |ds| > 1 ==> ds[0] != '0'
  {
    if p < 10 then [DigitChar(p)] else Decimal(p / 10) + [DigitChar(p % 10)]
  }

  /** Reading back the decimal text of a number gives the number. */
  lemma {:induction false} DecimalRoundTrip(p: nat)
    ensures DecimalValue(Decimal(p)) == p
  {
    if p >= 10 {
      var ds := Decimal(p);
      assert ds[..|ds| - 1] == Decimal(p / 10);
      DecimalRoundTrip(p / 10);
    }
  }

  /** A leading zero does not change the value of a digit string. */
  lemma {:induction false} LeadingZeroIgnored(ds: string)
    requires AllDigits(ds)
    ensures AllDigits("0" + ds) && DecimalValue("0" + ds) == DecimalValue(ds)
  {
    var zs := "0" + ds;
    if ds != [] {
      assert zs[..|zs| - 1] == "0" + ds[..|ds| - 1];
      LeadingZeroIgnored(ds[..|ds| - 1]);
    }
  }

  /** Any number of zeros in front of the decimal text of `p` still reads
      as `p`, as `int(...)` reads a capture such as `0080`. */
  lemma {:induction false} LeadingZerosIgnored(zeros: nat, p: nat)
    ensures AllDigits(Zeros(zeros) + Decimal(p))
    ensures DecimalValue(Zeros(zeros) + Decimal(p)) == p
  {
    if zeros == 0 {
      assert Zeros(0) + Decimal(p) == Decimal(p);
      DecimalRoundTrip(p);
    } else {
      LeadingZerosIgnored(zeros - 1, p);
      assert Zeros(zeros) + Decimal(p) == "0" + (Zeros(zeros - 1) + Decimal(p));
      LeadingZeroIgnored(Zeros(zeros - 1) + Decimal(p));
    }
  }

  function Zeros(n: nat): (z: string)
    ensures |z| == n && AllDigits(z)
  {
    if n == 0 then "" else "0" + Zeros(n - 1)
  }

  // ---------------------------------------------------------------------------
  // The pattern `\[([0-9a-fA-F:]+)\](:([0-9]+))?` under `re.match`
  // ---------------------------------------------------------------------------

  /** The groups the program uses from `m.groups()`: group 1 (the host) and
      group 3 (the port digits, `None` when the optional part did not take
      part in the match).  Group 2 is `":" + port` and is discarded. */
  datatype Groups = Groups(host: string, port: Option<string>)

  /** Groups the pattern can produce at all: a non-empty host of host
      characters and, if present, a non-empty run of digits. */
  predicate WellFormedGroups(g: Groups) {
    |g.host| > 0 && AllHostChars(g.host)
    && (g.port.Some? ==> |g.port.value| > 0 && AllDigits(g.port.value))
  }

  /** The text the pattern consumes when it produces these groups. */
  function MatchedText(g: Groups): string {
    "[" + g.host + "]" + (if g.port.Some? then ":" + g.port.value else "")
  }

  /** Reference semantics: the pattern matches a prefix of `s` producing
      groups `g` (`re.match` only anchors at the start).  Several `g` may
      qualify; the regex engine reports the one of highest priority. */
  predicate IsMatch(s: string, g: Groups) {
    WellFormedGroups(g) && MatchedText(g) <= s
  }

  /** The match cannot be extended: after a port group no further digit
      follows, and without one no `:` followed by a digit follows. */
  predicate Maximal(s: string, g: Groups) {
    var e := |MatchedText(g)|;
    if g.port.Some? then !(e < |s| && IsDigit(s[e]))
    else !(e + 1 < |s| && s[e] == ':' && IsDigit(s[e + 1]))
  }

  /** The optional group `(:([0-9]+))?` tried at position `j`: a `:` and
      the longest run of digits after it, or absent when there is no `:` or
      no digit after it. */
  function PortGroup(s: string, j: nat): (p: Option<string>)
    requires j <= |s|
    ensures p.Some? ==>
      j + 1 + |p.value| <= |s| && s[j] == ':' && s[j + 1..j + 1 + |p.value|] == p.value
      && |p.value| > 0 && AllDigits(p.value)
      && !(j + 1 + |p.value| < |s| && IsDigit(s[j + 1 + |p.value|]))
    ensures p.None? ==> !(j + 1 < |s| && s[j] == ':' && IsDigit(s[j + 1]))
  {
    if j < |s| && s[j] == ':' then
      var d := Span(s, j + 1, IsDigit);
      if d == 0 then None else Some(s[j + 1..j + 1 + d])
    else None
  }

  /** The leading `\[([0-9a-fA-F:]+)\]`: `[`, the longest run of host
      characters, which must be non-empty, and `]`.  No shorter run can be
      followed by `]`, so backtracking never finds another. */
  function HostGroup(s: string): (h: Option<string>)
    ensures h.Some? ==>
      2 + |h.value| <= |s| && s[0] == '[' && s[1..1 + |h.value|] == h.value && s[1 + |h.value|] == ']'
      && |h.value| > 0 && AllHostChars(h.value)
  {
    if |s| == 0 || s[0] != '[' then None
    else
      var n := Span(s, 1, IsHostChar);
      if n == 0 || 1 + n == |s| || s[1 + n] != ']' then None
      else Some(s[1..1 + n])
  }

  /** The match as a character scan: the bracketed host, then the optional
      port group.  Whatever follows is ignored. */
  function Match(s: string): (m: Option<Groups>)
    ensures m.Some? ==> IsMatch(s, m.value) && Maximal(s, m.value)
  {
    match HostGroup(s)
    case None => None
    case Some(host) =>
      var j := 2 + |host|;
      var port := PortGroup(s, j);
      assert MatchedText(Groups(host, None)) == s[..j];
      assert port.Some? ==> MatchedText(Groups(host, port)) == s[..j + 1 + |port.value|];
      Some(Groups(host, port))
  }

  /** Prefix facts about a candidate match, by position in `s`. */
  lemma IsMatchAt(s: string, g: Groups)
    requires IsMatch(s, g)
    ensures |g.host| + 2 <= |s| && s[0] == '[' && s[1 + |g.host|] == ']'
    ensures forall k :: 0 <= k < |g.host| ==> s[1 + k] == g.host[k]
    ensures g.port.Some? ==>
      |g.host| + 3 + |g.port.value| <= |s| && s[2 + |g.host|] == ':'
      && forall k :: 0 <= k < |g.port.value| ==> s[3 + |g.host| + k] == g.port.value[k]
  {
  }

  /** The scan finds a match whenever the pattern matches a prefix, and the
      one it reports is the one a backtracking engine prefers: the host is
      the only possible one, the optional port group is taken whenever it
      can be, and its digit run is the longest available. */
  lemma MatchComplete(s: string, g: Groups)
    requires IsMatch(s, g)
    ensures Match(s).Some?
    ensures Match(s).value.host == g.host
    ensures g.port.Some? ==> Match(s).value.port.Some? && g.port.value <= Match(s).value.port.value
  {
    IsMatchAt(s, g);
    var h := |g.host|;
    SpanExact(s, 1, IsHostChar, h);
    assert s[1..1 + h] == g.host;
    assert HostGroup(s) == Some(g.host);
    if g.port.Some? {
      var d := g.port.value;
      assert IsDigit(s[3 + h]);
      var p := PortGroup(s, 2 + h).value;
      assert s[3 + h..3 + h + |p|][..|d|] == d;
    }
  }

  /** The scan reports exactly the candidate match that cannot be extended:
      the one a backtracking engine returns, since it tries the longest host
      run, the optional group before its absence, and the longest digit run
      first. */
  lemma MatchCharacterized(s: string, g: Groups)
    ensures Match(s) == Some(g) <==> IsMatch(s, g) && Maximal(s, g)
  {
    if IsMatch(s, g) && Maximal(s, g) {
      MatchComplete(s, g);
      var m := Match(s).value;
      IsMatchAt(s, m);
      IsMatchAt(s, g);
      if g.port.Some? {
        var d, d' := g.port.value, m.port.value;
        assert |d'| == |d|;
        assert d' == d;
      }
    }
  }

  // ---------------------------------------------------------------------------
  // The parsed address spec
  // ---------------------------------------------------------------------------

  /** Python's truthiness of an optional string: `None` and `""` are false. */
  predicate Truthy(o: Option<string>) {
    o.Some? && o.value != ""
  }

  datatype ParseResult = Failure | Success(host: string, port: Option<nat>)

  /** `m = re.match(...)`, `ip, _, port = m.groups()` and, under `if port:`,
      `int(port)`. */
  function Parse(s: string): (r: ParseResult)
    ensures r.Success? <==> Match(s).Some?
    ensures r.Success? ==> |r.host| > 0 && AllHostChars(r.host) && "[" + r.host + "]" <= s
  {
    match Match(s)
    case None => Failure
    case Some(g) =>
      if Truthy(g.port) then Success(g.host, Some(DecimalValue(g.port.value)))
      else Success(g.host, None)
  }

  /** Parsing succeeds exactly when the string starts with `[`, one or more
      host characters and `]`; the host is exactly those bracket contents. */
  lemma ParseShape(s: string, h: string)
    ensures (Parse(s).Success? && Parse(s).host == h) <==> IsMatch(s, Groups(h, None))
  {
    if IsMatch(s, Groups(h, None)) {
      MatchComplete(s, Groups(h, None));
    }
    if Parse(s).Success? && Parse(s).host == h {
      var g := Match(s).value;
      assert MatchedText(Groups(h, None)) <= MatchedText(g);
    }
  }

  /** The text of a match with a port, as the address spec is written. */
  lemma MatchedTextWithPort(h: string, d: string)
    ensures MatchedText(Groups(h, Some(d))) == "[" + h + "]:" + d
  {
  }

  /** A prefix match that cannot be extended parses to its own groups, with
      the port digits read in base ten. */
  lemma ParseMaximal(s: string, g: Groups)
    requires IsMatch(s, g) && Maximal(s, g)
    ensures Parse(s) == Success(g.host, if g.port.Some? then Some(DecimalValue(g.port.value)) else None)
  {
    MatchCharacterized(s, g);
  }

  /** A port group followed by a non-digit is taken whole, and whatever
      follows it is ignored. */
  lemma ParseWithPort(h: string, d: string, rest: string)
    requires |h| > 0 && AllHostChars(h) && |d| > 0 && AllDigits(d)
    requires rest == [] || !IsDigit(rest[0])
    ensures Parse("[" + h + "]:" + d + rest) == Success(h, Some(DecimalValue(d)))
  {
    var g := Groups(h, Some(d));
    var t := MatchedText(g);
    MatchedTextWithPort(h, d);
    var s := t + rest;
    assert |t| < |s| ==> s[|t|] == rest[0];
    ParseMaximal(s, g);
  }

  /** Without a port group (nothing, or something other than `:` and a
      digit, follows the bracket) the match succeeds with the port absent. */
  lemma ParseWithoutPort(h: string, rest: string)
    requires |h| > 0 && AllHostChars(h)
    requires !(|rest| >= 2 && rest[0] == ':' && IsDigit(rest[1]))
    ensures Parse("[" + h + "]" + rest) == Success(h, None)
  {
    var g := Groups(h, None);
    var t := MatchedText(g);
    assert t == "[" + h + "]";
    var s := t + rest;
    assert |t| + 1 < |s| ==> s[|t|] == rest[0] && s[|t| + 1] == rest[1];
    ParseMaximal(s, g);
  }

  /** Round trip: the spec written from a host and a port parses back to them. */
  lemma RoundTrip(h: string, p: nat)
    requires |h| > 0 && AllHostChars(h)
    ensures Parse("[" + h + "]:" + Decimal(p)) == Success(h, Some(p))
    ensures Parse("[" + h + "]") == Success(h, None)
  {
    ParseWithPort(h, Decimal(p), "");
    assert "[" + h + "]:" + Decimal(p) + "" == "[" + h + "]:" + Decimal(p);
    DecimalRoundTrip(p);
    ParseWithoutPort(h, "");
    assert "[" + h + "]" + "" == "[" + h + "]";
  }

  // ---------------------------------------------------------------------------
  // The launch decision
  // ---------------------------------------------------------------------------

  /** The address a server would be bound to: what `web()` hands to
      `HTTPServer6`. */
  datatype Listener = Listener(host: string, port: nat)

  /** `web(ip='::', port=8080)`, reduced to the address it binds. */
  function Web(ip: string := "::", port: nat := 8080): Listener
  {
    Listener(ip, port)
  }

  /** The call `cli()` makes for a parse result: none on failure, otherwise
      `web(ip, int(port))` or `web(ip)`. */
  function Launch(r: ParseResult): (l: Option<Listener>)
    ensures l.None? <==> r.Failure?
    ensures r.Success? ==> l == Some(Listener(r.host, if r.port.Some? then r.port.value else 8080))
  {
    match r
    case Failure => None
    case Success(ip, Some(p)) => Some(Web(ip, p))
    case Success(ip, None) => Some(Web(ip))
  }

  /** `cli()` given the value of `--web` (`None` when the flag is absent). */
  function Cli(web: Option<string>): (l: Option<Listener>)
    ensures l.Some? ==> web.Some? && Parse(web.value).Success?
  {
    if Truthy(web) then Launch(Parse(web.value)) else None
  }

  /** `web()` without arguments binds the unspecified address on 8080. */
  lemma WebDefaults()
    ensures Web() == Listener("::", 8080)
  {
  }

  /** The launcher gets exactly the parsed host, with the captured port or
      8080, and nothing is launched when the value is absent or malformed. */
  lemma CliLaunches(web: Option<string>)
    ensures Cli(web).Some? <==> web.Some? && Parse(web.value).Success?
    ensures Cli(web).Some? ==>
      Cli(web).value.host == Parse(web.value).host
      && Cli(web).value.port == (if Parse(web.value).port.Some? then Parse(web.value).port.value else 8080)
  {
  }

  /** A captured port of 0 is passed through, not replaced by 8080. */
  lemma PortZeroKept(h: string)
    requires |h| > 0 && AllHostChars(h)
    ensures Cli(Some("[" + h + "]:0")) == Some(Listener(h, 0))
  {
    ParseWithPort(h, "0", "");
    assert "[" + h + "]:0" == "[" + h + "]:" + "0" + "";
  }

  /** Without a port the launcher binds to 8080. */
  lemma NoPortDefaults(h: string)
    requires |h| > 0 && AllHostChars(h)
    ensures Cli(Some("[" + h + "]")) == Some(Listener(h, 8080))
  {
    RoundTrip(h, 0);
  }

  // ---------------------------------------------------------------------------
  // Worked examples
  // ---------------------------------------------------------------------------

  /** The digit strings of the examples below, read in base ten. */
  lemma DecimalExamples()
    ensures DecimalValue("9090") == 9090
    ensures DecimalValue("0") == 0
    ensures DecimalValue("80") == 80
    ensures DecimalValue("0080") == 80
    ensures DecimalValue("99999") == 99999
  {
    assert "9090"[..3] == "909" && "909"[..2] == "90" && "90"[..1] == "9";
    assert "0080"[..3] == "008" && "008"[..2] == "00" && "00"[..1] == "0" && "0"[..0] == "";
    assert "80"[..1] == "8" && "8"[..0] == "";
    assert "99999"[..4] == "9999" && "9999"[..3] == "999" && "999"[..2] == "99" && "99"[..1] == "9" && "9"[..0] == "";
  }

  lemma ExampleWithPort()
    ensures Parse("[::1]:9090") == Success("::1", Some(9090))
  {
    ParseWithPort("::1", "9090", "");
    assert "[::1]:9090" == "[" + "::1" + "]:" + "9090" + "";
    DecimalExamples();
  }

  lemma ExampleUnspecifiedHost()
    ensures Parse("[::]") == Success("::", None)
  {
  }

  lemma ExampleTrailingHostText()
    ensures Parse("[::1]xyz") == Success("::1", None)
  {
  }

  lemma ExampleColonWithoutDigits()
    ensures Parse("[::1]:") == Success("::1", None)
  {
  }

  lemma ExampleSyntacticHosts()
    ensures Parse("[:::]") == Success(":::", None)
    ensures Parse("[abc]") == Success("abc", None)
  {
  }

  lemma ExamplePortZero()
    ensures Parse("[::]:0") == Success("::", Some(0))
  {
  }

  lemma ExampleTrailingText()
    ensures Parse("[::1]:80abc") == Success("::1", Some(80))
  {
    ParseWithPort("::1", "80", "abc");
    assert "[::1]:80abc" == "[" + "::1" + "]:" + "80" + "abc";
    DecimalExamples();
  }

  lemma ExampleLeadingZeros()
    ensures Parse("[::]:0080") == Success("::", Some(80))
  {
    ParseWithPort("::", "0080", "");
    assert "[::]:0080" == "[" + "::" + "]:" + "0080" + "";
    DecimalExamples();
  }

  lemma ExampleLargePort()
    ensures Parse("[::]:99999") == Success("::", Some(99999))
  {
    ParseWithPort("::", "99999", "");
    assert "[::]:99999" == "[" + "::" + "]:" + "99999" + "";
    DecimalExamples();
  }

  lemma ExampleFailures()
    ensures Parse("not-an-address") == Failure
    ensures Parse("[]") == Failure
    ensures Parse("[::1") == Failure
    ensures Parse(" [::1]") == Failure
    ensures Cli(None) == None && Cli(Some("")) == None
  {
  }
}
