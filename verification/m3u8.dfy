/** The master-playlist reader of `internal/m3u8/m3u8.go`: a line-by-line
    state machine that pairs each `#EXT-X-STREAM-INF:` description with the
    next `http` line, and the selector that picks the highest-bandwidth
    variant. Only the narrow attribute layout the code's regular expression
    accepts is modelled, not the general tag grammar of RFC 8216. */
module M3u8 {
  import opened Wrappers
  import opened Text

  /** One variant stream of a master playlist. */
  datatype StreamInfo = StreamInfo(
    bandwidth: int,
    averageBandwidth: int,
    codecs: string,
    resolution: string,
    frameRate: string,
    url: string)

  /** Go's zero `StreamInfo{}`; an empty `resolution` means "no pending
      description". */
  const NoStream := StreamInfo(0, 0, "", "", "", "")

  const StreamInfTag := "#EXT-X-STREAM-INF:"

  // ---------------------------------------------------------------------------
  // The attribute regular expression
  //   BANDWIDTH=(\d+),AVERAGE-BANDWIDTH=(\d+),CODECS="([^"]+)",
  //   RESOLUTION=(\d+x\d+),FRAME-RATE=([\d.]+)
  // Every repetition in it is followed by a byte its class excludes, so
  // from a given start there is at most one way to match, and the greedy
  // maximal runs below are exactly what the regexp engine captures.
  // ---------------------------------------------------------------------------

  predicate NotQuote(c: char) {
    c != '"'
  }

  predicate IsDigitOrDot(c: char) {
    IsDigit(c) || c == '.'
  }

  /** What follows the literal `lit` at the start of `s`, if `s` starts with it. */
  function Lit(s: string, lit: string): (r: Option<string>)
    ensures r.Some? <==> HasPrefix(s, lit)
    ensures r.Some? ==> s == lit + r.value
  {
    if HasPrefix(s, lit) then
      assert s == s[..|lit|] + s[|lit|..];
      Some(s[|lit|..])
    else None
  }

  /** The longest non-empty prefix of `s` made of bytes of class `cls`, and
      what follows it; `None` if `s` does not start with such a byte. */
  function Run(s: string, cls: char -> bool): (r: Option<(string, string)>)
    ensures r.Some? <==> |s| > 0 && cls(s[0])
    ensures r.Some? ==> var (run, rest) := r.value;
      && |run| > 0 && All(run, cls) && s == run + rest
      && (|rest| > 0 ==> !cls(rest[0]))
  {
    if |s| > 0 && cls(s[0]) then
      match Run(s[1..], cls)
      case None => Some(([s[0]], s[1..]))
      case Some((run, rest)) =>
        assert s == [s[0]] + s[1..];
        Some(([s[0]] + run, rest))
    else None
  }

  /** One `literal(class+)` piece of the expression at the start of `s`:
      the captured run and what follows it. */
  function Field(s: string, lit: string, cls: char -> bool): (r: Option<(string, string)>)
    ensures r.Some? ==> |r.value.0| > 0 && All(r.value.0, cls)
  {
    var rest :- Lit(s, lit);
    Run(rest, cls)
  }

  /** The regular expression matched at the very start of `s`. The captures
      become the fields of a `StreamInfo` with an empty URL; the two
      bandwidths go through `strconv.Atoi`. */
  function MatchAt(s: string): (r: Option<StreamInfo>)
    ensures r.Some? ==> r.value.resolution != "" && r.value.url == ""
  {
    var (bw, r1) :- Field(s, "BANDWIDTH=", IsDigit);
    var (avg, r2) :- Field(r1, ",AVERAGE-BANDWIDTH=", IsDigit);
    var (codecs, r3) :- Field(r2, ",CODECS=\"", NotQuote);
    var (width, r4) :- Field(r3, "\",RESOLUTION=", IsDigit);
    var (height, r5) :- Field(r4, "x", IsDigit);
    var (rate, _) :- Field(r5, ",FRAME-RATE=", IsDigitOrDot);
    Some(StreamInfo(Atoi(bw), Atoi(avg), codecs, width + "x" + height, rate, ""))
  }

  /** `FindStringSubmatch`: the leftmost match anywhere in the line. */
  function MatchStreamInf(line: string): (r: Option<StreamInfo>)
    ensures r.Some? ==> r.value.resolution != "" && r.value.url == ""
  {
    match MatchAt(line)
    case Some(info) => Some(info)
    case None => if |line| == 0 then None else MatchStreamInf(line[1..])
  }

  /** A piece that starts with the literal and a maximal run is captured. */
  lemma FieldOf(lit: string, run: string, rest: string, cls: char -> bool)
    requires |run| > 0 && All(run, cls)
    requires |rest| > 0 ==> !cls(rest[0])
    ensures Field(lit + (run + rest), lit, cls) == Some((run, rest))
  {
    var s := lit + (run + rest);
    assert s[..|lit|] == lit;
    assert s[|lit|..] == run + rest;
    RunOfClass(run, rest, cls);
  }

  /** A piece followed by the next literal, whose first byte ends the run. */
  lemma FieldBefore(lit: string, run: string, next: string, rest: string, cls: char -> bool)
    requires |run| > 0 && All(run, cls)
    requires |next| > 0 && !cls(next[0])
    ensures Field(lit + (run + (next + rest)), lit, cls) == Some((run, next + rest))
  {
    assert (next + rest)[0] == next[0];
    FieldOf(lit, run, next + rest, cls);
  }

  /** No match can start at a byte other than `B`. */
  lemma NoMatchAt(s: string)
    requires |s| == 0 || s[0] != 'B'
    ensures MatchAt(s) == None
  {
    if |s| >= 10 {
      assert s[..10][0] != "BANDWIDTH="[0];
    }
  }

  /** A prefix without the byte `B` cannot hold the start of a match, so the
      search skips over it. */
  lemma {:induction false} MatchSkipsPrefix(p: string, s: string)
    requires 'B' !in p
    ensures MatchStreamInf(p + s) == MatchStreamInf(s)
  {
    if |p| > 0 {
      assert p[0] in p;
      NoMatchAt(p + s);
      assert MatchStreamInf(p + s) == MatchStreamInf((p + s)[1..]);
      assert (p + s)[1..] == p[1..] + s;
      MatchSkipsPrefix(p[1..], s);
    } else {
      assert p + s == s;
    }
  }

  // ---------------------------------------------------------------------------
  // ParseIndexM3U8: the line state machine
  // ---------------------------------------------------------------------------

  /** The variables of the parsing loop: the variants found so far and the
      pending description (`NoStream` when there is none). */
  datatype ParseState = ParseState(streams: seq<StreamInfo>, current: StreamInfo)

  const Initial := ParseState([], NoStream)

  predicate Pending(st: ParseState) {
    st.current.resolution != ""
  }

  /** How the loop sees a line once it is trimmed: a description (with the
      attributes, if they match), a URL line, or anything else. */
  datatype LineKind = Description(attrs: Option<StreamInfo>) | UrlLine(url: string) | OtherLine

  function Classify(raw: string): LineKind {
    var line := TrimSpace(raw);
    if HasPrefix(line, StreamInfTag) then Description(MatchStreamInf(line))
    else if HasPrefix(line, "http") then UrlLine(line)
    else OtherLine
  }

  /** One iteration of the loop over the lines. */
  function Step(st: ParseState, raw: string): ParseState {
    match Classify(raw)
    case Description(Some(info)) => st.(current := info)
    case Description(None) => st
    case UrlLine(url) =>
      if Pending(st) then ParseState(st.streams + [st.current.(url := url)], NoStream) else st
    case OtherLine => st
  }

  /** The loop over `lines`, in order. */
  function RunLines(st: ParseState, lines: seq<string>): ParseState {
    if |lines| == 0 then st
    else Step(RunLines(st, lines[..|lines| - 1]), lines[|lines| - 1])
  }

  /** `ParseIndexM3U8`: split on `\n` and run the state machine. Every
      variant it returns has a non-empty resolution and a URL that starts
      with `http`, carries no surrounding white space and lies on one line. */
  function ParseIndexM3U8(content: string): (streams: seq<StreamInfo>)
    ensures forall k :: 0 <= k < |streams| ==> WellFormed(streams[k])
  {
    var lines := Split(content, '\n');
    RunPreservesWellFormed(Initial, lines);
    RunLines(Initial, lines).streams
  }

  /** What every returned variant satisfies. The URL starts with `h`, so
      only its last byte could be white space. */
  predicate WellFormed(v: StreamInfo) {
    v.resolution != "" && WellFormedUrl(v.url)
  }

  /** A URL as a URL line yields it: it starts with `http`, lies on one line
      and does not end in white space. */
  predicate WellFormedUrl(url: string) {
    && HasPrefix(url, "http")
    && '\n' !in url
    && !IsAsciiSpace(url[|url| - 1])
  }

  predicate Invariant(st: ParseState) {
    && (forall k :: 0 <= k < |st.streams| ==> WellFormed(st.streams[k]))
    && st.current.url == ""
  }

  lemma {:induction false} RunPreservesWellFormed(st: ParseState, lines: seq<string>)
    requires Invariant(st)
    requires forall k :: 0 <= k < |lines| ==> '\n' !in lines[k]
    ensures Invariant(RunLines(st, lines))
  {
    if |lines| > 0 {
      RunPreservesWellFormed(st, lines[..|lines| - 1]);
      StepPreservesWellFormed(RunLines(st, lines[..|lines| - 1]), lines[|lines| - 1]);
    }
  }

  lemma StepPreservesWellFormed(st: ParseState, raw: string)
    requires Invariant(st)
    requires '\n' !in raw
    ensures Invariant(Step(st, raw))
  {
    if IsUrlLine(raw) {
      var url := Classify(raw).url;
      UrlLineIsWellFormed(raw);
      UrlLineStep(st, raw);
      if Pending(st) {
        var v := st.current.(url := url);
        assert v.resolution == st.current.resolution && v.url == url;
        AppendWellFormed(st.streams, v);
      }
    } else if IsWellFormedDescription(raw) {
      DescriptionStep(st, raw);
    } else if IsDescriptionLine(raw) {
      MalformedDescriptionStep(st, raw);
    } else {
      OtherLineStep(st, raw);
    }
  }

  /** Appending a well-formed variant keeps every variant well formed. */
  lemma AppendWellFormed(vs: seq<StreamInfo>, v: StreamInfo)
    requires forall k :: 0 <= k < |vs| ==> WellFormed(vs[k])
    requires WellFormed(v)
    ensures forall k :: 0 <= k < |vs + [v]| ==> WellFormed((vs + [v])[k])
  {
    forall k | 0 <= k < |vs + [v]| ensures WellFormed((vs + [v])[k]) {
      if k < |vs| {
        assert (vs + [v])[k] == vs[k];
      }
    }
  }

  /** The URL a one-line URL line yields starts with `http`, lies on one
      line and does not end in white space. */
  lemma UrlLineIsWellFormed(raw: string)
    requires IsUrlLine(raw) && '\n' !in raw
    ensures WellFormedUrl(Classify(raw).url)
  {
    TrimByContained(raw, IsAsciiSpace);
  }

  /** Running over one more line is one more step. */
  lemma RunSnoc(st: ParseState, a: seq<string>, x: string)
    ensures RunLines(st, a + [x]) == Step(RunLines(st, a), x)
  {
    assert (a + [x])[..|a|] == a;
  }

  /** Running over `a + b` is running over `a`, then over `b`. */
  lemma {:induction false} RunAppend(st: ParseState, a: seq<string>, b: seq<string>)
    ensures RunLines(st, a + b) == RunLines(RunLines(st, a), b)
    decreases |b|
  {
    if |b| == 0 {
      assert a + b == a;
    } else {
      assert (a + b)[..|a + b| - 1] == a + b[..|b| - 1];
      RunAppend(st, a, b[..|b| - 1]);
    }
  }

  // ---------------------------------------------------------------------------
  // Properties of single steps
  // ---------------------------------------------------------------------------

  predicate IsDescriptionLine(raw: string) {
    Classify(raw).Description?
  }

  predicate IsWellFormedDescription(raw: string) {
    Classify(raw).Description? && Classify(raw).attrs.Some?
  }

  predicate IsUrlLine(raw: string) {
    Classify(raw).UrlLine?
  }

  /** A URL line is consumed exactly when a description is pending: it then
      completes the pending variant and clears the slot; without a pending
      description it is ignored. */
  lemma UrlLineStep(st: ParseState, raw: string)
    requires IsUrlLine(raw)
    ensures Pending(st) ==>
      Step(st, raw) == ParseState(st.streams + [st.current.(url := Classify(raw).url)], NoStream)
    ensures Pending(st) ==> !Pending(Step(st, raw))
    ensures !Pending(st) ==> Step(st, raw) == st
  {
  }

  /** A description line whose attributes fail to match changes nothing: it
      neither clears nor replaces an earlier pending description. */
  lemma MalformedDescriptionStep(st: ParseState, raw: string)
    requires IsDescriptionLine(raw) && !IsWellFormedDescription(raw)
    ensures Step(st, raw) == st
  {
  }

  /** A well-formed description replaces whatever was pending, and adds no
      variant. */
  lemma DescriptionStep(st: ParseState, raw: string)
    requires IsWellFormedDescription(raw)
    ensures Step(st, raw).streams == st.streams
    ensures Step(st, raw).current == Classify(raw).attrs.value
    ensures Pending(Step(st, raw))
  {
  }

  /** Any other line leaves the state as it was. */
  lemma OtherLineStep(st: ParseState, raw: string)
    requires !IsDescriptionLine(raw) && !IsUrlLine(raw)
    ensures Step(st, raw) == st
  {
  }

  /** Running over three lines is three steps. */
  lemma RunThree(st: ParseState, lines: seq<string>)
    requires |lines| == 3
    ensures RunLines(st, lines) == Step(Step(Step(st, lines[0]), lines[1]), lines[2])
  {
    var two := lines[..2];
    var one := two[..1];
    assert one[..0] == [];
    assert RunLines(st, one) == Step(st, lines[0]);
    assert RunLines(st, two) == Step(RunLines(st, one), lines[1]);
  }

  /** Two well-formed descriptions before a URL: the variant carries the
      second one. */
  lemma {:induction false} SecondDescriptionWins(st: ParseState, d1: string, d2: string, u: string)
    requires IsWellFormedDescription(d1) && IsWellFormedDescription(d2) && IsUrlLine(u)
    ensures RunLines(st, [d1, d2, u]).streams ==
      st.streams + [Classify(d2).attrs.value.(url := Classify(u).url)]
  {
    var s1 := Step(st, d1);
    var s2 := Step(s1, d2);
    RunThree(st, [d1, d2, u]);
    DescriptionStep(st, d1);
    DescriptionStep(s1, d2);
    assert s2.streams == st.streams && s2.current == Classify(d2).attrs.value;
    UrlLineStep(s2, u);
  }

  // ---------------------------------------------------------------------------
  // Counting and ordering
  // ---------------------------------------------------------------------------

  function CountWellFormedDescriptions(lines: seq<string>): nat {
    if |lines| == 0 then 0
    else
      var last := if IsWellFormedDescription(lines[|lines| - 1]) then 1 else 0;
      CountWellFormedDescriptions(lines[..|lines| - 1]) + last
  }

  /** The trimmed URL lines, in order. */
  function UrlLines(lines: seq<string>): seq<string> {
    if |lines| == 0 then []
    else
      var last := if IsUrlLine(lines[|lines| - 1]) then [Classify(lines[|lines| - 1]).url] else [];
      UrlLines(lines[..|lines| - 1]) + last
  }

  function Urls(streams: seq<StreamInfo>): seq<string> {
    if |streams| == 0 then [] else Urls(streams[..|streams| - 1]) + [streams[|streams| - 1].url]
  }

  /** `a` is `b` with some elements left out, order kept. */
  predicate IsSubsequence<T(==)>(a: seq<T>, b: seq<T>) {
    || |a| == 0
    || (&& |b| > 0
        && (|| IsSubsequence(a, b[..|b| - 1])
            || (a[|a| - 1] == b[|b| - 1] && IsSubsequence(a[..|a| - 1], b[..|b| - 1]))))
  }

  lemma SubsequenceExtend<T>(a: seq<T>, b: seq<T>, x: T)
    requires IsSubsequence(a, b)
    ensures IsSubsequence(a, b + [x])
    ensures IsSubsequence(a + [x], b + [x])
  {
    assert (b + [x])[..|b|] == b;
    assert (a + [x])[..|a|] == a;
  }

  lemma {:induction false} SubsequenceLength<T>(a: seq<T>, b: seq<T>)
    requires IsSubsequence(a, b)
    ensures |a| <= |b|
  {
    if |a| > 0 {
      if IsSubsequence(a, b[..|b| - 1]) {
        SubsequenceLength(a, b[..|b| - 1]);
      } else {
        SubsequenceLength(a[..|a| - 1], b[..|b| - 1]);
      }
    }
  }

  /** The variants' URLs are the URL lines of the manifest with some left
      out, in manifest order; and there are at most as many variants as
      well-formed descriptions (a pending description counts as one not yet
      used up). */
  lemma {:induction false} RunOrderAndCount(lines: seq<string>)
    ensures var st := RunLines(Initial, lines);
      && IsSubsequence(Urls(st.streams), UrlLines(lines))
      && |st.streams| + (if Pending(st) then 1 else 0) <= CountWellFormedDescriptions(lines)
  {
    if |lines| > 0 {
      var init := lines[..|lines| - 1];
      var raw := lines[|lines| - 1];
      RunOrderAndCount(init);
      var st := RunLines(Initial, init);
      match Classify(raw)
      case Description(attrs) =>
        assert UrlLines(lines) == UrlLines(init);
        if attrs.Some? {
          DescriptionStep(st, raw);
        } else {
          MalformedDescriptionStep(st, raw);
        }
      case UrlLine(url) =>
        assert UrlLines(lines) == UrlLines(init) + [url];
        UrlLineStep(st, raw);
        SubsequenceExtend(Urls(st.streams), UrlLines(init), url);
        if Pending(st) {
          var st' := Step(st, raw);
          assert st'.streams[..|st.streams|] == st.streams;
          assert Urls(st'.streams) == Urls(st.streams) + [url];
        }
      case OtherLine =>
        OtherLineStep(st, raw);
        assert UrlLines(lines) == UrlLines(init);
    }
  }

  /** At most as many variants as well-formed descriptions and as URL lines. */
  lemma VariantCountBounds(content: string)
    ensures var lines := Split(content, '\n');
      && |ParseIndexM3U8(content)| <= CountWellFormedDescriptions(lines)
      && |ParseIndexM3U8(content)| <= |UrlLines(lines)|
  {
    var lines := Split(content, '\n');
    RunOrderAndCount(lines);
    var st := RunLines(Initial, lines);
    SubsequenceLength(Urls(st.streams), UrlLines(lines));
    UrlsLength(st.streams);
  }

  lemma {:induction false} UrlsLength(streams: seq<StreamInfo>)
    ensures |Urls(streams)| == |streams|
  {
    if |streams| > 0 {
      UrlsLength(streams[..|streams| - 1]);
    }
  }

  // ---------------------------------------------------------------------------
  // Round trip: writing variants in the accepted layout and parsing them back
  // ---------------------------------------------------------------------------

  /** A variant the code's layout can express: bandwidths within `int`,
      non-empty codecs without quotes, `WxH` resolution, a frame rate of
      digits and dots, and a one-line `http` URL with no surrounding space. */
  ghost predicate Renderable(v: StreamInfo) {
    && 0 <= v.bandwidth <= MaxInt64
    && 0 <= v.averageBandwidth <= MaxInt64
    && |v.codecs| > 0 && All(v.codecs, NotQuote) && '\n' !in v.codecs
    && (exists w, h :: IsResolution(v.resolution, w, h))
    && |v.frameRate| > 0 && All(v.frameRate, IsDigitOrDot)
    && HasPrefix(v.url, "http") && '\n' !in v.url
    && !IsAsciiSpace(v.url[|v.url| - 1])
  }

  predicate IsResolution(r: string, w: string, h: string) {
    && |w| > 0 && All(w, IsDigit)
    && |h| > 0 && All(h, IsDigit)
    && r == w + "x" + h
  }

  /** The description line of a variant, attributes in the order the code
      expects. */
  function DescriptionLine(v: StreamInfo): string {
    StreamInfTag + Attributes(v)
  }

  /** The attribute list of a variant's description line. */
  function Attributes(v: StreamInfo): string {
    "BANDWIDTH=" + (NatDigits(Nat(v.bandwidth))
      + (",AVERAGE-BANDWIDTH=" + (NatDigits(Nat(v.averageBandwidth))
      + (",CODECS=\"" + (v.codecs + ("\",RESOLUTION=" + (v.resolution
      + (",FRAME-RATE=" + v.frameRate))))))))
  }

  function Nat(n: int): nat {
    if n < 0 then 0 else n
  }

  /** The two lines a variant contributes to a playlist. */
  function VariantLines(vs: seq<StreamInfo>): seq<string> {
    if |vs| == 0 then []
    else VariantLines(vs[..|vs| - 1]) + [DescriptionLine(vs[|vs| - 1]), vs[|vs| - 1].url]
  }

  lemma RunOfDigits(digits: string, rest: string)
    requires |digits| > 0 && All(digits, IsDigit)
    requires |rest| > 0 && !IsDigit(rest[0])
    ensures Run(digits + rest, IsDigit) == Some((digits, rest))
  {
    RunOfClass(digits, rest, IsDigit);
  }

  lemma {:induction false} RunOfClass(run: string, rest: string, cls: char -> bool)
    requires |run| > 0 && All(run, cls)
    requires |rest| > 0 ==> !cls(rest[0])
    ensures Run(run + rest, cls) == Some((run, rest))
  {
    var s := run + rest;
    assert s[0] == run[0];
    assert s[1..] == run[1..] + rest;
    if |run| > 1 {
      RunOfClass(run[1..], rest, cls);
      assert [run[0]] + run[1..] == run;
    } else {
      assert run == [run[0]];
      if |rest| > 0 {
        assert s[1..][0] == rest[0];
      }
    }
  }

  /** The attribute text the code expects, built from its six captures. */
  function AttributeText(bw: string, avg: string, codecs: string, w: string, h: string, rate: string): string {
    "BANDWIDTH=" + (bw + (",AVERAGE-BANDWIDTH=" + (avg + (",CODECS=\"" + (codecs
      + ("\",RESOLUTION=" + (w + ("x" + (h + (",FRAME-RATE=" + rate))))))))))
  }

  /** Each capture of well-formed attribute text is recovered. */
  lemma MatchAttributeText(bw: string, avg: string, codecs: string, w: string, h: string, rate: string)
    requires |bw| > 0 && All(bw, IsDigit) && |avg| > 0 && All(avg, IsDigit)
    requires |codecs| > 0 && All(codecs, NotQuote)
    requires |w| > 0 && All(w, IsDigit) && |h| > 0 && All(h, IsDigit)
    requires |rate| > 0 && All(rate, IsDigitOrDot)
    ensures MatchAt(AttributeText(bw, avg, codecs, w, h, rate))
      == Some(StreamInfo(Atoi(bw), Atoi(avg), codecs, w + "x" + h, rate, ""))
  {
    var r5 := ",FRAME-RATE=" + rate;
    var r4 := "x" + (h + r5);
    var r3 := "\",RESOLUTION=" + (w + r4);
    var r2 := ",CODECS=\"" + (codecs + r3);
    var r1 := ",AVERAGE-BANDWIDTH=" + (avg + r2);
    FieldBefore("BANDWIDTH=", bw, ",AVERAGE-BANDWIDTH=", avg + r2, IsDigit);
    FieldBefore(",AVERAGE-BANDWIDTH=", avg, ",CODECS=\"", codecs + r3, IsDigit);
    FieldBefore(",CODECS=\"", codecs, "\",RESOLUTION=", w + r4, NotQuote);
    FieldBefore("\",RESOLUTION=", w, "x", h + r5, IsDigit);
    FieldBefore("x", h, ",FRAME-RATE=", rate, IsDigit);
    assert rate + "" == rate;
    FieldOf(",FRAME-RATE=", rate, "", IsDigitOrDot);
  }

  /** The attribute matcher recovers every field of a renderable variant
      except the URL. */
  lemma MatchDescriptionLine(v: StreamInfo)
    requires Renderable(v)
    ensures MatchStreamInf(DescriptionLine(v)) == Some(v.(url := ""))
  {
    var w, h :| IsResolution(v.resolution, w, h);
    var bw := NatDigits(v.bandwidth);
    var avg := NatDigits(v.averageBandwidth);
    var text := AttributeText(bw, avg, v.codecs, w, h, v.frameRate);
    var tail := ",FRAME-RATE=" + v.frameRate;
    ResolutionThen(w, h, tail);
    assert Attributes(v) == text;
    MatchSkipsPrefix(StreamInfTag, text);
    MatchAttributeText(bw, avg, v.codecs, w, h, v.frameRate);
    AtoiFormat(v.bandwidth);
    AtoiFormat(v.averageBandwidth);
  }

  lemma ResolutionThen(w: string, h: string, rest: string)
    ensures (w + "x" + h) + rest == w + ("x" + (h + rest))
  {
  }

  /** A description line survives trimming and is recognised as one. */
  lemma DescriptionLineIsWellFormed(v: StreamInfo)
    requires Renderable(v)
    ensures Classify(DescriptionLine(v)) == Description(Some(v.(url := "")))
  {
    var line := DescriptionLine(v);
    assert line[0] == '#';
    assert line[|line| - 1] == v.frameRate[|v.frameRate| - 1];
    TrimByUnchanged(line, IsAsciiSpace);
    assert line[..|StreamInfTag|] == StreamInfTag;
    MatchDescriptionLine(v);
  }

  /** A URL line survives trimming and is recognised as one. */
  lemma UrlLineIsUrl(v: StreamInfo)
    requires Renderable(v)
    ensures Classify(v.url) == UrlLine(v.url)
  {
    assert v.url[0] == 'h';
    TrimByUnchanged(v.url, IsAsciiSpace);
    assert !HasPrefix(v.url, StreamInfTag) by {
      if |v.url| >= |StreamInfTag| {
        assert v.url[..|StreamInfTag|][0] == 'h';
      }
    }
  }

  /** Parsing the lines written for renderable variants, after any lines the
      parser ignores, gives those variants back. */
  lemma {:induction false} RunVariantLines(st: ParseState, vs: seq<StreamInfo>)
    requires forall k :: 0 <= k < |vs| ==> Renderable(vs[k])
    requires st.current == NoStream
    ensures RunLines(st, VariantLines(vs)) == ParseState(st.streams + vs, NoStream)
  {
    if |vs| > 0 {
      var init := vs[..|vs| - 1];
      var v := vs[|vs| - 1];
      RunVariantLines(st, init);
      var pre := VariantLines(init);
      var mid := ParseState(st.streams + init, NoStream);
      var d := DescriptionLine(v);
      assert VariantLines(vs) == pre + [d] + [v.url];
      RunSnoc(st, pre, d);
      RunSnoc(st, pre + [d], v.url);
      DescriptionLineIsWellFormed(v);
      UrlLineIsUrl(v);
      DescriptionStep(mid, d);
      var mid' := Step(mid, d);
      assert mid' == ParseState(mid.streams, v.(url := ""));
      assert v.resolution != "";
      UrlLineStep(mid', v.url);
      assert Step(mid', v.url) == ParseState(mid.streams + [v], NoStream);
      assert RunLines(st, pre + [d]) == mid';
      assert RunLines(st, VariantLines(vs)) == Step(mid', v.url);
      SnocSplit(st.streams, vs);
    } else {
      assert st.streams + vs == st.streams;
    }
  }

  lemma SnocSplit<T>(a: seq<T>, b: seq<T>)
    requires |b| > 0
    ensures a + b[..|b| - 1] + [b[|b| - 1]] == a + b
  {
    assert b == b[..|b| - 1] + [b[|b| - 1]];
  }

  lemma {:induction false} VariantLinesSingleLine(vs: seq<StreamInfo>)
    requires forall k :: 0 <= k < |vs| ==> Renderable(vs[k])
    ensures forall k :: 0 <= k < |VariantLines(vs)| ==> '\n' !in VariantLines(vs)[k]
  {
    if |vs| > 0 {
      VariantLinesSingleLine(vs[..|vs| - 1]);
      DescriptionLineSingleLine(vs[|vs| - 1]);
    }
  }

  /** A description line lies on one line. */
  lemma DescriptionLineSingleLine(v: StreamInfo)
    requires Renderable(v)
    ensures '\n' !in DescriptionLine(v)
  {
    var w, h :| IsResolution(v.resolution, w, h);
    assert '\n' !in w && '\n' !in h;
    var bw, avg := NatDigits(Nat(v.bandwidth)), NatDigits(Nat(v.averageBandwidth));
    assert '\n' !in bw && '\n' !in avg;
    AttributesSingleLine(bw, avg, v.codecs, v.resolution, v.frameRate);
  }

  /** Attribute text whose fields are single-line is single-line. */
  lemma AttributesSingleLine(bw: string, avg: string, codecs: string, resolution: string, rate: string)
    requires '\n' !in bw && '\n' !in avg && '\n' !in codecs && '\n' !in resolution && '\n' !in rate
    ensures '\n' !in StreamInfTag + ("BANDWIDTH=" + (bw + (",AVERAGE-BANDWIDTH=" + (avg
      + (",CODECS=\"" + (codecs + ("\",RESOLUTION=" + (resolution + (",FRAME-RATE=" + rate)))))))))
  {
    var t := ",FRAME-RATE=" + rate;
    NoNewlineConcat(",FRAME-RATE=", rate);
    NoNewlineConcat(resolution, t);
    t := resolution + t;
    NoNewlineConcat("\",RESOLUTION=", t);
    t := "\",RESOLUTION=" + t;
    NoNewlineConcat(codecs, t);
    t := codecs + t;
    NoNewlineConcat(",CODECS=\"", t);
    t := ",CODECS=\"" + t;
    NoNewlineConcat(avg, t);
    t := avg + t;
    NoNewlineConcat(",AVERAGE-BANDWIDTH=", t);
    t := ",AVERAGE-BANDWIDTH=" + t;
    NoNewlineConcat(bw, t);
    t := bw + t;
    NoNewlineConcat("BANDWIDTH=", t);
    t := "BANDWIDTH=" + t;
    NoNewlineConcat(StreamInfTag, t);
  }

  /** Two single-line strings joined are single-line. */
  lemma NoNewlineConcat(a: string, b: string)
    requires '\n' !in a && '\n' !in b
    ensures '\n' !in a + b
  {
  }

  lemma PlaylistSingleLine(header: string, vs: seq<StreamInfo>)
    requires forall k :: 0 <= k < |vs| ==> Renderable(vs[k])
    requires '\n' !in header
    ensures forall k :: 0 <= k < |[header] + VariantLines(vs)| ==> '\n' !in ([header] + VariantLines(vs))[k]
  {
    var body := VariantLines(vs);
    VariantLinesSingleLine(vs);
    forall k | 0 <= k < |[header] + body| ensures '\n' !in ([header] + body)[k] {
      if k > 0 {
        assert ([header] + body)[k] == body[k - 1];
      }
    }
  }

  /** The round trip: a playlist of a header line and the two lines of each
      renderable variant parses to exactly those variants, in order. */
  lemma ParseRoundTrip(header: string, vs: seq<StreamInfo>)
    requires forall k :: 0 <= k < |vs| ==> Renderable(vs[k])
    requires '\n' !in header && !IsDescriptionLine(header) && !IsUrlLine(header)
    ensures ParseIndexM3U8(Join([header] + VariantLines(vs), '\n')) == vs
  {
    PlaylistLines(header, vs);
    RunPlaylist(header, vs);
  }

  /** Splitting the written playlist gives back its lines. */
  lemma PlaylistLines(header: string, vs: seq<StreamInfo>)
    requires forall k :: 0 <= k < |vs| ==> Renderable(vs[k])
    requires '\n' !in header
    ensures Split(Join([header] + VariantLines(vs), '\n'), '\n') == [header] + VariantLines(vs)
  {
    PlaylistSingleLine(header, vs);
    SplitJoin([header] + VariantLines(vs), '\n');
  }

  /** The loop over a header line and the lines of renderable variants
      ends with exactly those variants and nothing pending. */
  lemma RunPlaylist(header: string, vs: seq<StreamInfo>)
    requires forall k :: 0 <= k < |vs| ==> Renderable(vs[k])
    requires !IsDescriptionLine(header) && !IsUrlLine(header)
    ensures RunLines(Initial, [header] + VariantLines(vs)) == ParseState(vs, NoStream)
  {
    var body := VariantLines(vs);
    RunAppend(Initial, [header], body);
    RunHeader(header);
    RunVariantLines(Initial, vs);
    assert Initial.streams + vs == vs;
  }

  /** A first line that is neither a description nor a URL leaves the
      initial state as it was. */
  lemma RunHeader(header: string)
    requires !IsDescriptionLine(header) && !IsUrlLine(header)
    ensures RunLines(Initial, [header]) == Initial
  {
    assert [header][..0] == [];
    OtherLineStep(Initial, header);
  }

  /** The two variants of the package's parser test (720p at 1 Mbit/s, then
      1080p at 2 Mbit/s). */
  const TestVariants: seq<StreamInfo> := [
    StreamInfo(1000000, 950000, "avc1.64001f,mp4a.40.2", "1280x720",
      "30.000", "https://example.com/stream_720p.m3u8"),
    StreamInfo(2000000, 1900000, "avc1.640028,mp4a.40.2", "1920x1080",
      "30.000", "https://example.com/stream_1080p.m3u8")]

  /** The first line of every manifest. */
  const Header: string := "#EXTM3U"

  /** The test's manifest: the `#EXTM3U` header, then a description line and
      a URL line per variant. */
  function TestPlaylist(): string {
    Join([Header] + VariantLines(TestVariants), '\n')
  }

  lemma TestVariantsRenderable()
    ensures forall k :: 0 <= k < |TestVariants| ==> Renderable(TestVariants[k])
  {
    Test720Renderable();
    Test1080Renderable();
  }

  lemma Test720Codecs()
    ensures '"' !in TestVariants[0].codecs && '\n' !in TestVariants[0].codecs
  {
    var c := TestVariants[0].codecs;
    assert forall k :: 0 <= k < |c| ==> c[k] != '"' && c[k] != '\n';
  }

  lemma Test720Url()
    ensures '\n' !in TestVariants[0].url
  {
    var u := TestVariants[0].url;
    assert forall k :: 0 <= k < |u| ==> u[k] != '\n';
  }

  lemma Test720Renderable()
    ensures Renderable(TestVariants[0])
  {
    var v := TestVariants[0];
    Test720Codecs();
    Test720Url();
    assert "1280" + "720" == ['1', '2', '8', '0', '7', '2', '0'];
    assert v.frameRate == ['3', '0', '.', '0', '0', '0'];
    assert v.url[..4] == "http";
    LiteralRenderable(v, "1280", "720");
  }

  lemma Test1080Codecs()
    ensures '"' !in TestVariants[1].codecs && '\n' !in TestVariants[1].codecs
  {
    var c := TestVariants[1].codecs;
    assert forall k :: 0 <= k < |c| ==> c[k] != '"' && c[k] != '\n';
  }

  lemma Test1080Url()
    ensures '\n' !in TestVariants[1].url
  {
    var u := TestVariants[1].url;
    assert forall k :: 0 <= k < |u| ==> u[k] != '\n';
  }

  lemma Test1080Renderable()
    ensures Renderable(TestVariants[1])
  {
    var v := TestVariants[1];
    Test1080Codecs();
    Test1080Url();
    assert "1920" + "1080" == ['1', '9', '2', '0', '1', '0', '8', '0'];
    assert v.frameRate == ['3', '0', '.', '0', '0', '0'];
    assert v.url[..4] == "http";
    LiteralRenderable(v, "1920", "1080");
  }

  /** A concrete variant is renderable once its pieces are checked one by one. */
  lemma LiteralRenderable(v: StreamInfo, w: string, h: string)
    requires 0 <= v.bandwidth <= MaxInt64 && 0 <= v.averageBandwidth <= MaxInt64
    requires |v.codecs| > 0 && '"' !in v.codecs && '\n' !in v.codecs
    requires v.resolution == w + "x" + h && |w| > 0 && |h| > 0
    requires forall c :: c in w + h ==> IsDigit(c)
    requires |v.frameRate| > 0 && forall c :: c in v.frameRate ==> IsDigitOrDot(c)
    requires HasPrefix(v.url, "http") && '\n' !in v.url && !IsAsciiSpace(v.url[|v.url| - 1])
    ensures Renderable(v)
  {
    forall k | 0 <= k < |w| ensures IsDigit(w[k]) {
      assert w[k] in w + h;
    }
    forall k | 0 <= k < |h| ensures IsDigit(h[k]) {
      assert (w + h)[|w| + k] == h[k];
    }
    assert IsResolution(v.resolution, w, h);
  }

  /** A line without surrounding white space that starts with neither
      `#EXT-X-STREAM-INF:` nor `http` is ignored. */
  lemma PlainLineIsIgnored(line: string)
    requires |line| > 0 && !IsAsciiSpace(line[0]) && !IsAsciiSpace(line[|line| - 1])
    requires !HasPrefix(line, StreamInfTag) && !HasPrefix(line, "http")
    ensures Classify(line) == OtherLine
  {
    TrimByUnchanged(line, IsAsciiSpace);
  }

  /** The header line is neither a description nor a URL. */
  lemma HeaderIsIgnored()
    ensures Classify(Header) == OtherLine
    ensures '\n' !in Header
  {
    assert Header == ['#', 'E', 'X', 'T', 'M', '3', 'U'];
    assert forall k :: 0 <= k < |Header| ==> Header[k] != '\n';
    assert !HasPrefix(Header, StreamInfTag) by {
      assert |Header| < |StreamInfTag|;
    }
    assert !HasPrefix(Header, "http") by {
      assert Header[..4][0] == '#';
    }
    PlainLineIsIgnored(Header);
  }

  /** The test's manifest yields exactly its two variants, in order. */
  lemma ParseTestPlaylist()
    ensures ParseIndexM3U8(TestPlaylist()) == TestVariants
    ensures |ParseIndexM3U8(TestPlaylist())| == 2
  {
    TestVariantsRenderable();
    HeaderIsIgnored();
    assert !IsDescriptionLine(Header) && !IsUrlLine(Header);
    ParseRoundTrip(Header, TestVariants);
  }

  // ---------------------------------------------------------------------------
  // GetBestQuality
  // ---------------------------------------------------------------------------

  /** `k` is the first index holding the largest bandwidth. */
  predicate IsFirstMax(streams: seq<StreamInfo>, k: int) {
    && 0 <= k < |streams|
    && (forall j :: 0 <= j < |streams| ==> streams[j].bandwidth <= streams[k].bandwidth)
    && (forall j :: 0 <= j < k ==> streams[j].bandwidth < streams[k].bandwidth)
  }

  /** There is only one such index. */
  lemma FirstMaxUnique(streams: seq<StreamInfo>, k: int, k': int)
    requires IsFirstMax(streams, k) && IsFirstMax(streams, k')
    ensures k == k'
  {
    assert streams[k].bandwidth <= streams[k'].bandwidth;
    assert streams[k'].bandwidth <= streams[k].bandwidth;
  }

  /** `GetBestQuality`: `None` (Go's nil) for no variants; otherwise the
      variant at the first index of maximal bandwidth, because a later
      variant replaces the best so far only when strictly greater. */
  method GetBestQuality(streams: seq<StreamInfo>) returns (best: Option<StreamInfo>)
    ensures best.None? <==> |streams| == 0
    ensures best.Some? ==> exists k :: IsFirstMax(streams, k) && streams[k] == best.value
  {
    if |streams| == 0 {
      return None;
    }
    var b := streams[0];
    ghost var bi := 0;
    for i := 0 to |streams|
      invariant 0 <= bi < |streams| && b == streams[bi]
      invariant bi <= i || (i == 0 && bi == 0)
      invariant forall j :: 0 <= j < i ==> streams[j].bandwidth <= b.bandwidth
      invariant forall j :: 0 <= j < bi ==> streams[j].bandwidth < b.bandwidth
    {
      if streams[i].bandwidth > b.bandwidth {
        b := streams[i];
        bi := i;
      }
    }
    assert IsFirstMax(streams, bi);
    return Some(b);
  }

  /** The three variants of the package's best-pick test, with the fields
      the test leaves unset at Go's zero values. */
  const BestPickVariants: seq<StreamInfo> := [
    StreamInfo(1000000, 0, "", "1280x720", "30.000", ""),
    StreamInfo(2000000, 0, "", "1920x1080", "30.000", ""),
    StreamInfo(500000, 0, "", "854x480", "30.000", "")]

  /** Whatever index `GetBestQuality` settles on for the test's variants is
      the 1080p one at 2 Mbit/s. */
  lemma BestPickOfTest(k: int)
    requires IsFirstMax(BestPickVariants, k)
    ensures BestPickVariants[k].resolution == "1920x1080"
  {
    assert IsFirstMax(BestPickVariants, 1);
    FirstMaxUnique(BestPickVariants, k, 1);
  }
}
