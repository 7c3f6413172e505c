/** Log-line parsing: the level and format enumerations, format detection by
    majority vote, and one field extractor per format.

    The regular expressions, `serde_json` and the template rewriter are not
    modelled: they are the function-valued fields of `Recognizers`, passed in
    by the caller. The klog line pattern is fixed-column and is written out
    (`MatchKlog`). */
module Parser {
  import opened Common

  datatype LogFormat = Json | Syslog | Logfmt | Klog | Log4j | PythonLog | AccessLog | Plain

  /** Severity, declared from least to most severe; the derived ordering is the
      declaration order. */
  datatype LogLevel = Trace | Debug | Info | Warn | Error | Fatal {
    function Rank(): nat {
      match this
      case Trace => 0
      case Debug => 1
      case Info => 2
      case Warn => 3
      case Error => 4
      case Fatal => 5
    }

    /** The derived `<` on levels. */
    predicate Below(other: LogLevel) {
      Rank() < other.Rank()
    }

    /** The three-letter badge of a level. */
    function ShortName(): (r: string)
      ensures |r| == 3
    {
      match this
      case Trace => "TRC"
      case Debug => "DBG"
      case Info => "INF"
      case Warn => "WRN"
      case Error => "ERR"
      case Fatal => "FTL"
    }
  }

  /** The six levels in increasing severity. */
  const Levels: seq<LogLevel> := [Trace, Debug, Info, Warn, Error, Fatal]

  /** `Below` is a strict total order whose chain is `Levels`. */
  lemma LevelOrder(a: LogLevel, b: LogLevel, c: LogLevel)
    ensures a.Below(b) || a == b || b.Below(a)
    ensures !(a.Below(b) && b.Below(a)) && !a.Below(a)
    ensures a.Below(b) && b.Below(c) ==> a.Below(c)
    ensures forall i :: 0 <= i < 5 ==> Levels[i].Below(Levels[i + 1])
  {
  }

  /** Distinct levels have distinct badges. */
  lemma ShortNameInjective(a: LogLevel, b: LogLevel)
    ensures a.ShortName() == b.ShortName() ==> a == b
  {
  }

  datatype ParsedLine = ParsedLine(
    raw: string,
    level: Option<LogLevel>,
    timestamp: Option<string>,
    message: string,
    format: LogFormat,
    prettyJson: Option<string>,
    extraFields: seq<(string, string)>,
    template: string)

  /** What every extractor returns for a line its format does not recognise. */
  function Degraded(raw: string, format: LogFormat): ParsedLine {
    ParsedLine(raw, None, None, raw, format, None, [], [])
  }

  // ---------------------------------------------------------------------------
  // The recognisers the model takes as given
  // ---------------------------------------------------------------------------

  /** Captures of the syslog pattern: timestamp, host, message. */
  datatype SyslogCaps = SyslogCaps(timestamp: string, host: string, message: string)

  /** Captures of the log4j pattern. */
  datatype Log4jCaps = Log4jCaps(timestamp: string, thread: string, level: string,
                                 className: string, message: string)

  /** Captures of the Python logging pattern. */
  datatype PythonCaps = PythonCaps(timestamp: string, moduleName: string, level: string,
                                   message: string)

  /** Captures of the combined access-log pattern; the last two are optional. */
  datatype AccessCaps = AccessCaps(ip: string, user: string, timestamp: string,
                                   httpMethod: string, path: string, status: string,
                                   bytes: string, referer: Option<string>,
                                   userAgent: Option<string>)

  /** One `key=value` match: the quoted or the bare value group. */
  datatype LogfmtPair = LogfmtPair(key: string, quoted: Option<string>, bare: Option<string>)

  /** A JSON value as far as the parser looks into it: strings, numbers (with
      their `as_u64` reading), booleans, null, and arrays or objects by their
      compact rendering. */
  datatype JsonValue =
    | JString(s: string)
    | JNumber(text: string, asU64: Option<nat>)
    | JBool(b: bool)
    | JNull
    | JCompound(compact: string)

  /** A parsed JSON document: an object (entries in the map's iteration order)
      or any other value. */
  datatype JsonDoc = JObject(entries: seq<(string, JsonValue)>) | JNonObject

  datatype Recognizers = Recognizers(
    jsonParse: string -> Option<JsonDoc>,
    jsonPretty: JsonDoc -> Option<string>,
    syslog: string -> Option<SyslogCaps>,
    plainTimestamp: string -> Option<string>,
    logfmtTokenCount: string -> nat,
    logfmtPairs: string -> seq<LogfmtPair>,
    levelKeyword: string -> Option<string>,
    log4j: string -> Option<Log4jCaps>,
    python: string -> Option<PythonCaps>,
    access: string -> Option<AccessCaps>,
    template: string -> string,
    /** The engine's `\d` class. */
    isDigit: char -> bool)

  // ---------------------------------------------------------------------------
  // Lookup tables
  // ---------------------------------------------------------------------------

  /** The upper-case spellings that name each level. */
  function Keywords(l: LogLevel): set<string> {
    match l
    case Trace => {"TRACE"}
    case Debug => {"DEBUG"}
    case Info => {"INFO", "NOTICE"}
    case Warn => {"WARN", "WARNING"}
    case Error => {"ERROR", "SEVERE"}
    case Fatal => {"FATAL", "CRITICAL", "EMERGENCY", "EMERG", "ALERT", "PANIC"}
  }

  /** Case-insensitive level names. */
  function ParseLevelStr(s: string): (r: Option<LogLevel>)
    ensures r.Some? ==> Upper(s) in Keywords(r.value)
    ensures r.None? ==> forall l: LogLevel :: Upper(s) !in Keywords(l)
  {
    var u := Upper(s);
    if u == "TRACE" then Some(Trace)
    else if u == "DEBUG" then Some(Debug)
    else if u == "INFO" || u == "NOTICE" then Some(Info)
    else if u == "WARN" || u == "WARNING" then Some(Warn)
    else if u == "ERROR" || u == "SEVERE" then Some(Error)
    else if u == "FATAL" || u == "CRITICAL" || u == "EMERGENCY" || u == "EMERG"
         || u == "ALERT" || u == "PANIC" then Some(Fatal)
    else None
  }

  /** Lower-casing a level name does not change what it names. */
  lemma ParseLevelStrCaseInsensitive(s: string)
    ensures ParseLevelStr(Lower(s)) == ParseLevelStr(s)
  {
    UpperOfLower(s);
  }

  /** Each keyword of a level, in any ASCII case, parses back to that level. */
  lemma ParseLevelStrKeyword(l: LogLevel, s: string)
    requires Upper(s) in Keywords(l)
    ensures ParseLevelStr(s) == Some(l)
  {
    var r := ParseLevelStr(s);
    if r.Some? {
      KeywordsDisjoint(r.value, l, Upper(s));
    }
  }

  /** No spelling names two levels. */
  lemma KeywordsDisjoint(a: LogLevel, b: LogLevel, w: string)
    requires w in Keywords(a) && w in Keywords(b)
    ensures a == b
  {
  }

  /** Numeric levels of Bunyan-style loggers: tens bands 1-10 .. 51-60. */
  function ParseNumericLevel(n: nat): (r: Option<LogLevel>)
    ensures r.Some? <==> 1 <= n <= 60
    ensures r.Some? ==> 10 * r.value.Rank() < n <= 10 * r.value.Rank() + 10
  {
    if 1 <= n <= 10 then Some(Trace)
    else if 11 <= n <= 20 then Some(Debug)
    else if 21 <= n <= 30 then Some(Info)
    else if 31 <= n <= 40 then Some(Warn)
    else if 41 <= n <= 50 then Some(Error)
    else if 51 <= n <= 60 then Some(Fatal)
    else None
  }

  /** The level of an HTTP status (a `u16`). */
  function StatusToLevel(status: nat): (r: Option<LogLevel>)
    requires status < 0x1_0000
    ensures r.Some?
    ensures r.value == Error <==> 500 <= status <= 599
    ensures r.value == Warn <==> 400 <= status <= 499
    ensures r.value == Info <==> !(400 <= status <= 599)
  {
    if 500 <= status <= 599 then Some(Error)
    else if 400 <= status <= 499 then Some(Warn)
    else Some(Info)
  }

  /** The level named by the first level keyword found in `s`, if any. */
  function KeywordLevel(rec: Recognizers, s: string): Option<LogLevel> {
    match rec.levelKeyword(s)
    case Some(w) => ParseLevelStr(w)
    case None => None
  }

  // ---------------------------------------------------------------------------
  // Klog lines, matched by hand
  // ---------------------------------------------------------------------------

  predicate IsAsciiDigit(c: char) { '0' <= c <= '9' }

  predicate AllDigits(s: string) { forall i :: 0 <= i < |s| ==> IsAsciiDigit(s[i]) }

  /** Every character of `s` is in the class `digit`. */
  predicate AllIn(digit: char -> bool, s: string) { forall i :: 0 <= i < |s| ==> digit(s[i]) }

  /** What the klog matcher relies on about the engine's `\d`, which is
      Unicode's decimal digits (general category Nd): the ASCII digits are in
      it and no white-space character is. Since the classes that follow each
      other in the pattern are then disjoint, taking each run as long as it
      goes gives the regex's match. */
  predicate DigitClass(digit: char -> bool) {
    && (forall c :: '0' <= c <= '9' ==> digit(c))
    && (forall c :: IsWhitespace(c) ==> !digit(c))
  }

  /** The length of the longest run of characters satisfying `p` from `from`. */
  function RunLength(s: string, from: nat, p: char -> bool): (n: nat)
    requires from <= |s|
    ensures from + n <= |s|
    ensures forall i :: from <= i < from + n ==> p(s[i])
    ensures from + n < |s| ==> !p(s[from + n])
    decreases |s| - from
  {
    if from < |s| && p(s[from]) then 1 + RunLength(s, from + 1, p) else 0
  }

  /** A run that is followed by the end or by a character outside `p` has the
      expected length. */
  lemma RunLengthExact(s: string, from: nat, n: nat, p: char -> bool)
    requires from + n <= |s|
    requires forall i :: from <= i < from + n ==> p(s[i])
    requires from + n < |s| ==> !p(s[from + n])
    ensures RunLength(s, from, p) == n
  {
  }

  /** A run over a known piece of the text: its length is the piece's when the
      piece is all in `p` and the character after it is not. */
  lemma RunLengthOfPiece(s: string, from: nat, piece: string, p: char -> bool)
    requires from + |piece| <= |s| && s[from..from + |piece|] == piece
    requires forall i :: 0 <= i < |piece| ==> p(piece[i])
    requires from + |piece| < |s| ==> !p(s[from + |piece|])
    ensures RunLength(s, from, p) == |piece|
  {
    forall i | from <= i < from + |piece|
      ensures p(s[i])
    {
      assert s[i] == s[from..from + |piece|][i - from];
    }
    RunLengthExact(s, from, |piece|, p);
  }

  predicate NotCloseBracket(c: char) { c != ']' }

  /** Captures of the klog pattern
      `^([IWEF])(\d{4}) (\d{2}:\d{2}:\d{2}\.\d+)\s+(\d+) ([^\]]+)\] (.*)$`. */
  datatype KlogCaps = KlogCaps(severity: char, date: string, time: string, pid: string,
                               source: string, message: string)

  /** The part after the time field: `\s+(\d+) ([^\]]+)\] (.*)$` read from
      `from`, giving the pid, the source and the message. */
  function KlogRest(digit: char -> bool, raw: string, from: nat): (r: Option<(string, string, string)>)
    requires from <= |raw|
    ensures r.Some? ==> r.value.0 != [] && AllIn(digit, r.value.0)
    ensures r.Some? ==> r.value.1 != [] && ']' !in r.value.1 && '\n' !in r.value.2
  {
    var w := RunLength(raw, from, IsWhitespace);
    var ps := from + w;
    var pl := RunLength(raw, ps, digit);
    var ss := ps + pl + 1;
    if w == 0 || pl == 0 || ss > |raw| || raw[ss - 1] != ' ' then None
    else
      var sl := RunLength(raw, ss, NotCloseBracket);
      var ms := ss + sl + 2;
      if sl == 0 || ms > |raw| || raw[ms - 1] != ' ' || '\n' in raw[ms..] then None
      else Some((raw[ps..ps + pl], raw[ss..ss + sl], raw[ms..]))
  }

  function MatchKlog(digit: char -> bool, raw: string): (r: Option<KlogCaps>)
    ensures r.Some? ==> r.value.severity in "IWEF" && |r.value.date| == 4
    ensures r.Some? ==> r.value.pid != [] && AllIn(digit, r.value.pid)
    ensures r.Some? ==> r.value.source != [] && ']' !in r.value.source
    ensures r.Some? ==> '\n' !in r.value.message
  {
    if !KlogHead(digit, raw) then None
    else
      var f := RunLength(raw, 15, digit);
      if f == 0 then None
      else
        match KlogRest(digit, raw, 15 + f)
        case None => None
        case Some((pid, source, message)) =>
          Some(KlogCaps(raw[0], raw[1..5], raw[6..15 + f], pid, source, message))
  }

  /** The shape of a well-formed klog header field `HH:MM:SS.fff`. */
  predicate KlogTimeShape(digit: char -> bool, t: string) {
    |t| >= 10 && AllIn(digit, t[0..2]) && t[2] == ':' && AllIn(digit, t[3..5]) && t[5] == ':'
    && AllIn(digit, t[6..8]) && t[8] == '.' && AllIn(digit, t[9..])
  }

  predicate WellFormedKlog(digit: char -> bool, c: KlogCaps) {
    c.severity in "IWEF" && |c.date| == 4 && AllIn(digit, c.date) && KlogTimeShape(digit, c.time)
    && c.pid != [] && AllIn(digit, c.pid) && c.source != [] && ']' !in c.source
    && '\n' !in c.message
  }

  /** A klog line with the given fields, single-spaced. */
  function RenderKlog(c: KlogCaps): string {
    [c.severity] + c.date + " " + c.time + KlogTail(c)
  }

  /** What follows the time field: single-spaced pid, source, `] ` and message. */
  function KlogTail(c: KlogCaps): string {
    " " + c.pid + " " + c.source + "] " + c.message
  }

  /** The fixed-column head of a klog line: severity, date and time fields. */
  predicate KlogHead(digit: char -> bool, raw: string) {
    |raw| >= 16 && raw[0] in "IWEF" && AllIn(digit, raw[1..5]) && raw[5] == ' '
    && AllIn(digit, raw[6..8]) && raw[8] == ':' && AllIn(digit, raw[9..11]) && raw[11] == ':'
    && AllIn(digit, raw[12..14]) && raw[14] == '.'
  }

  /** The head of `raw` holds the severity, date and time fields of `c`, and
      the tail starts right after the time. */
  predicate KlogHeadAt(digit: char -> bool, raw: string, c: KlogCaps) {
    && KlogHead(digit, raw) && |c.time| >= 10 && 6 + |c.time| <= |raw|
    && raw[0] == c.severity && raw[1..5] == c.date && raw[6..6 + |c.time|] == c.time
  }

  lemma KlogHeadOfRender(digit: char -> bool, c: KlogCaps)
    requires DigitClass(digit) && WellFormedKlog(digit, c)
    ensures KlogHeadAt(digit, RenderKlog(c), c)
    ensures RenderKlog(c)[6 + |c.time|..] == KlogTail(c)
  {
    var raw := RenderKlog(c);
    assert raw[1..5] == c.date;
    assert raw[6..6 + |c.time|] == c.time;
    assert raw[6..8] == c.time[0..2] && raw[9..11] == c.time[3..5] && raw[12..14] == c.time[6..8];
    assert raw[6 + |c.time|..] == KlogTail(c);
  }

  /** Where the pieces of a rendered klog tail sit inside the line. */
  predicate KlogTailAt(raw: string, from: nat, pid: string, source: string, message: string) {
    && |raw| == from + |pid| + |source| + 4 + |message|
    && raw[from] == ' ' && raw[from + 1 + |pid|] == ' '
    && raw[from + |pid| + 2 + |source|] == ']' && raw[from + |pid| + |source| + 3] == ' '
    && raw[from + 1..from + 1 + |pid|] == pid
    && raw[from + |pid| + 2..from + |pid| + 2 + |source|] == source
    && raw[from + |pid| + |source| + 4..] == message
  }

  lemma KlogTailLayout(raw: string, from: nat, pid: string, source: string, message: string)
    requires from <= |raw| && raw[from..] == " " + pid + " " + source + "] " + message
    ensures KlogTailAt(raw, from, pid, source, message)
  {
    var tail := raw[from..];
    assert tail[1..1 + |pid|] == pid;
    assert tail[|pid| + 2..|pid| + 2 + |source|] == source;
    assert tail[|tail| - |message|..] == message;
  }

  /** `KlogRest` reads back the pieces of a tail laid out as rendered. */
  lemma KlogRestOfPieces(digit: char -> bool, raw: string, from: nat, pid: string, source: string, message: string)
    requires KlogTailAt(raw, from, pid, source, message)
    requires DigitClass(digit) && pid != [] && AllIn(digit, pid) && source != [] && ']' !in source && '\n' !in message
    ensures KlogRest(digit, raw, from) == Some((pid, source, message))
  {
    KlogTailRuns(digit, raw, from, pid, source);
    KlogRestWhen(digit, raw, from, |pid|, |source|);
  }

  /** The runs `KlogRest` measures in a rendered klog tail. */
  lemma KlogTailRuns(digit: char -> bool, raw: string, from: nat, pid: string, source: string)
    requires from + |pid| + |source| + 3 <= |raw|
    requires raw[from] == ' ' && raw[from + 1 + |pid|] == ' ' && raw[from + |pid| + 2 + |source|] == ']'
    requires raw[from + 1..from + 1 + |pid|] == pid && raw[from + |pid| + 2..from + |pid| + 2 + |source|] == source
    requires DigitClass(digit) && pid != [] && AllIn(digit, pid) && ']' !in source
    ensures RunLength(raw, from, IsWhitespace) == 1
    ensures RunLength(raw, from + 1, digit) == |pid|
    ensures RunLength(raw, from + |pid| + 2, NotCloseBracket) == |source|
  {
    assert raw[from..from + 1] == " ";
    RunLengthOfPiece(raw, from, " ", IsWhitespace);
    RunLengthOfPiece(raw, from + 1, pid, digit);
    assert forall i :: 0 <= i < |source| ==> NotCloseBracket(source[i]);
    RunLengthOfPiece(raw, from + |pid| + 2, source, NotCloseBracket);
  }

  /** `KlogRest` with the lengths of its runs known. */
  lemma KlogRestWhen(digit: char -> bool, raw: string, from: nat, pl: nat, sl: nat)
    requires from + pl + sl + 4 <= |raw| && pl > 0 && sl > 0
    requires RunLength(raw, from, IsWhitespace) == 1
    requires RunLength(raw, from + 1, digit) == pl && raw[from + pl + 1] == ' '
    requires RunLength(raw, from + pl + 2, NotCloseBracket) == sl && raw[from + pl + sl + 3] == ' '
    requires '\n' !in raw[from + pl + sl + 4..]
    ensures KlogRest(digit, raw, from)
            == Some((raw[from + 1..from + 1 + pl], raw[from + pl + 2..from + pl + 2 + sl], raw[from + pl + sl + 4..]))
  {
  }

  /** Matching a rendered well-formed klog line recovers its fields. */
  lemma MatchKlogRender(digit: char -> bool, c: KlogCaps)
    requires DigitClass(digit) && WellFormedKlog(digit, c)
    ensures MatchKlog(digit, RenderKlog(c)) == Some(c)
  {
    KlogHeadOfRender(digit, c);
    KlogFractionOfRender(digit, c);
    KlogTailOfRender(digit, c);
    MatchKlogOfLayout(digit, RenderKlog(c), c);
  }

  /** ASCII digits are in every admissible digit class. */
  lemma AsciiDigitsIn(digit: char -> bool, s: string)
    requires DigitClass(digit) && AllDigits(s)
    ensures AllIn(digit, s)
  {
  }

  /** The date may be written in any decimal digits the engine's `\d`
      accepts, such as the Arabic-Indic ones of "I١٢٣٤ 08:30:00.000000 1 f.go:1] m". */
  lemma KlogNonAsciiDigits(digit: char -> bool)
    requires DigitClass(digit)
    requires digit('\U{0661}') && digit('\U{0662}') && digit('\U{0663}') && digit('\U{0664}')
    ensures MatchKlog(digit, "I\U{0661}\U{0662}\U{0663}\U{0664} 08:30:00.000000 1 f.go:1] m")
            == Some(ArabicDateKlog)
  {
    ArabicDateWellFormed(digit);
    ArabicDateRender();
    MatchKlogRender(digit, ArabicDateKlog);
  }

  const ArabicDateKlog: KlogCaps :=
    KlogCaps('I', "\U{0661}\U{0662}\U{0663}\U{0664}", "08:30:00.000000", "1", "f.go:1", "m")

  lemma ArabicDateWellFormed(digit: char -> bool)
    requires DigitClass(digit)
    requires digit('\U{0661}') && digit('\U{0662}') && digit('\U{0663}') && digit('\U{0664}')
    ensures WellFormedKlog(digit, ArabicDateKlog)
  {
    var t := ArabicDateKlog.time;
    assert t[0..2] == "08" && t[3..5] == "30" && t[6..8] == "00" && t[9..] == "000000";
    AsciiDigitsIn(digit, "08");
    AsciiDigitsIn(digit, "30");
    AsciiDigitsIn(digit, "00");
    AsciiDigitsIn(digit, "000000");
    AsciiDigitsIn(digit, "1");
  }

  lemma ArabicDateRender()
    ensures RenderKlog(ArabicDateKlog) == "I\U{0661}\U{0662}\U{0663}\U{0664} 08:30:00.000000 1 f.go:1] m"
  {
  }

  /** `MatchKlog` recovers the fields of a line laid out as rendered. */
  lemma MatchKlogOfLayout(digit: char -> bool, raw: string, c: KlogCaps)
    requires DigitClass(digit) && WellFormedKlog(digit, c) && KlogHeadAt(digit, raw, c)
    requires RunLength(raw, 15, digit) == |c.time| - 9
    requires KlogTailAt(raw, 6 + |c.time|, c.pid, c.source, c.message)
    ensures MatchKlog(digit, raw) == Some(c)
  {
    KlogRestOfPieces(digit, raw, 6 + |c.time|, c.pid, c.source, c.message);
    MatchKlogOfPieces(digit, raw, c);
  }

  /** Where the pieces of the tail sit in a rendered klog line. */
  lemma KlogTailOfRender(digit: char -> bool, c: KlogCaps)
    requires DigitClass(digit) && WellFormedKlog(digit, c)
    ensures KlogTailAt(RenderKlog(c), 6 + |c.time|, c.pid, c.source, c.message)
  {
    KlogHeadOfRender(digit, c);
    KlogTailLayout(RenderKlog(c), 6 + |c.time|, c.pid, c.source, c.message);
  }

  /** `MatchKlog` with the head, the fraction run and the tail known. */
  lemma MatchKlogOfPieces(digit: char -> bool, raw: string, c: KlogCaps)
    requires KlogHeadAt(digit, raw, c)
    requires RunLength(raw, 15, digit) == |c.time| - 9
    requires KlogRest(digit, raw, 6 + |c.time|) == Some((c.pid, c.source, c.message))
    ensures MatchKlog(digit, raw) == Some(c)
  {
  }

  /** The fraction digits of a rendered time field run up to the space after
      it. */
  lemma KlogFractionOfRender(digit: char -> bool, c: KlogCaps)
    requires DigitClass(digit) && WellFormedKlog(digit, c)
    ensures RunLength(RenderKlog(c), 15, digit) == |c.time| - 9
  {
    var raw := RenderKlog(c);
    var f := |c.time| - 9;
    assert forall i :: 15 <= i < 15 + f ==> raw[i] == c.time[9..][i - 15];
    assert raw[15 + f] == ' ';
    RunLengthExact(raw, 15, f, digit);
  }

  function KlogSeverityLevel(sev: char): Option<LogLevel> {
    match sev
    case 'I' => Some(Info)
    case 'W' => Some(Warn)
    case 'E' => Some(Error)
    case 'F' => Some(Fatal)
    case _ => None
  }

  // ---------------------------------------------------------------------------
  // Format detection
  // ---------------------------------------------------------------------------

  /** Whether one sample line counts as a vote for `f`. */
  predicate LooksLike(rec: Recognizers, f: LogFormat, line: string) {
    match f
    case Json => var t := Trim(line); t != [] && t[0] == '{' && rec.jsonParse(t).Some?
    case Syslog => rec.syslog(line).Some?
    case Logfmt => rec.logfmtTokenCount(line) >= 3
    case Klog => MatchKlog(rec.isDigit, line).Some?
    case Log4j => rec.log4j(line).Some?
    case PythonLog => rec.python(line).Some?
    case AccessLog => rec.access(line).Some?
    case Plain => false
  }

  function CountLike(rec: Recognizers, f: LogFormat, sample: seq<string>): (n: nat)
    ensures n <= |sample|
  {
    if sample == [] then 0
    else CountLike(rec, f, sample[..|sample| - 1])
         + (if LooksLike(rec, f, sample[|sample| - 1]) then 1 else 0)
  }

  /** A strict majority of the sample votes for `f`. */
  predicate Wins(rec: Recognizers, f: LogFormat, sample: seq<string>) {
    CountLike(rec, f, sample) > |sample| / 2
  }

  /** The formats in the order they are put to the vote. */
  const DetectionOrder: seq<LogFormat> := [Json, Syslog, Logfmt, Klog, Log4j, PythonLog, AccessLog]

  /** The position of a format in `DetectionOrder`; Plain comes last. */
  function OrderIndex(f: LogFormat): (k: nat)
    ensures k <= 7 && (k < 7 ==> DetectionOrder[k] == f) && (k == 7 <==> f == Plain)
  {
    match f
    case Json => 0
    case Syslog => 1
    case Logfmt => 2
    case Klog => 3
    case Log4j => 4
    case PythonLog => 5
    case AccessLog => 6
    case Plain => 7
  }

  /** The first ten lines. */
  function Sample(lines: seq<string>): (r: seq<string>)
    ensures |r| == Min(|lines|, 10) && r == lines[..|r|]
  {
    if |lines| <= 10 then lines else lines[..10]
  }

  /** Guess the format of a file from its first ten lines: the first format in
      `DetectionOrder` that a strict majority of the sample matches, else Plain. */
  function DetectFormat(rec: Recognizers, lines: seq<string>): (r: LogFormat)
    ensures lines == [] ==> r == Plain
    ensures r == Plain <==> forall f :: f != Plain ==> !Wins(rec, f, Sample(lines))
    ensures r != Plain ==> Wins(rec, r, Sample(lines))
    ensures forall f :: OrderIndex(f) < OrderIndex(r) ==> !Wins(rec, f, Sample(lines))
  {
    var sample := Sample(lines);
    if sample == [] then Plain
    else if Wins(rec, Json, sample) then Json
    else if Wins(rec, Syslog, sample) then Syslog
    else if Wins(rec, Logfmt, sample) then Logfmt
    else if Wins(rec, Klog, sample) then Klog
    else if Wins(rec, Log4j, sample) then Log4j
    else if Wins(rec, PythonLog, sample) then PythonLog
    else if Wins(rec, AccessLog, sample) then AccessLog
    else Plain
  }

  lemma {:induction false} CountLikeAll(rec: Recognizers, f: LogFormat, sample: seq<string>)
    requires forall i :: 0 <= i < |sample| ==> LooksLike(rec, f, sample[i])
    ensures CountLike(rec, f, sample) == |sample|
  {
    if sample != [] {
      CountLikeAll(rec, f, sample[..|sample| - 1]);
    }
  }

  /** When every sampled line matches a format, detection picks that format
      or one that comes before it in `DetectionOrder`. */
  lemma UnanimousSample(rec: Recognizers, lines: seq<string>, f: LogFormat)
    requires lines != [] && f != Plain
    requires forall i :: 0 <= i < |Sample(lines)| ==> LooksLike(rec, f, Sample(lines)[i])
    ensures DetectFormat(rec, lines) != Plain
    ensures OrderIndex(DetectFormat(rec, lines)) <= OrderIndex(f)
  {
    CountLikeAll(rec, f, Sample(lines));
    assert Wins(rec, f, Sample(lines));
  }

  // ---------------------------------------------------------------------------
  // Per-format extractors
  // ---------------------------------------------------------------------------

  function ParseSyslogLine(rec: Recognizers, raw: string): (p: ParsedLine)
    ensures p.raw == raw && p.format == Syslog && p.extraFields == [] && p.level == KeywordLevel(rec, raw)
    ensures rec.syslog(raw).None? ==> p.timestamp.None? && p.message == raw
    ensures rec.syslog(raw).Some? ==>
              p.timestamp == Some(rec.syslog(raw).value.timestamp) && p.message == rec.syslog(raw).value.message
  {
    var (ts, msg) := match rec.syslog(raw)
      case Some(c) => (Some(c.timestamp), c.message)
      case None => (None, raw);
    ParsedLine(raw, KeywordLevel(rec, raw), ts, msg, Syslog, None, [], [])
  }

  function ParsePlainLine(rec: Recognizers, raw: string): (p: ParsedLine)
    ensures p.raw == raw && p.message == raw && p.format == Plain && p.extraFields == []
    ensures p.level == KeywordLevel(rec, raw) && p.timestamp == rec.plainTimestamp(raw)
  {
    ParsedLine(raw, KeywordLevel(rec, raw), rec.plainTimestamp(raw), raw, Plain, None, [], [])
  }

  function ParseKlogLine(rec: Recognizers, raw: string): (p: ParsedLine)
    ensures p.raw == raw && p.format == Klog
    ensures MatchKlog(rec.isDigit, raw).None? ==> p == Degraded(raw, Klog)
    ensures MatchKlog(rec.isDigit, raw).Some? ==>
              var c := MatchKlog(rec.isDigit, raw).value;
              p.level.Some? && p.level == KlogSeverityLevel(c.severity)
              && p.timestamp == Some(c.date + " " + c.time) && p.message == c.message
              && p.extraFields == [("pid", c.pid), ("source", c.source)]
  {
    match MatchKlog(rec.isDigit, raw)
    case None => Degraded(raw, Klog)
    case Some(c) =>
      ParsedLine(raw, KlogSeverityLevel(c.severity), Some(c.date + " " + c.time), c.message,
                 Klog, None, [("pid", c.pid), ("source", c.source)], [])
  }

  /** Klog fields survive a render-and-parse round trip. */
  lemma KlogLineRoundTrip(rec: Recognizers, c: KlogCaps)
    requires DigitClass(rec.isDigit) && WellFormedKlog(rec.isDigit, c)
    ensures ParseKlogLine(rec, RenderKlog(c)).message == c.message
    ensures ParseKlogLine(rec, RenderKlog(c)).timestamp == Some(c.date + " " + c.time)
    ensures ParseKlogLine(rec, RenderKlog(c)).extraFields == [("pid", c.pid), ("source", c.source)]
  {
    MatchKlogRender(rec.isDigit, c);
  }

  function ParseLog4jLine(rec: Recognizers, raw: string): (p: ParsedLine)
    ensures p.raw == raw && p.format == Log4j
    ensures rec.log4j(raw).Some? ==>
              var c := rec.log4j(raw).value;
              p.level == ParseLevelStr(c.level) && p.timestamp == Some(c.timestamp)
              && p.message == c.message && p.extraFields == [("thread", c.thread), ("class", c.className)]
    ensures rec.log4j(raw).None? ==>
              p.level == KeywordLevel(rec, raw) && p.timestamp == rec.plainTimestamp(raw)
              && p.message == raw && p.extraFields == []
  {
    match rec.log4j(raw)
    case Some(c) =>
      ParsedLine(raw, ParseLevelStr(c.level), Some(c.timestamp), c.message, Log4j, None,
                 [("thread", c.thread), ("class", c.className)], [])
    case None =>
      ParsedLine(raw, KeywordLevel(rec, raw), rec.plainTimestamp(raw), raw, Log4j, None, [], [])
  }

  function ParsePythonLogLine(rec: Recognizers, raw: string): (p: ParsedLine)
    ensures p.raw == raw && p.format == PythonLog
    ensures rec.python(raw).Some? ==>
              var c := rec.python(raw).value;
              p.level == ParseLevelStr(c.level) && p.timestamp == Some(c.timestamp)
              && p.message == c.message && p.extraFields == [("module", c.moduleName)]
    ensures rec.python(raw).None? ==>
              p.level == KeywordLevel(rec, raw) && p.timestamp == rec.plainTimestamp(raw)
              && p.message == raw && p.extraFields == []
  {
    match rec.python(raw)
    case Some(c) =>
      ParsedLine(raw, ParseLevelStr(c.level), Some(c.timestamp), c.message, PythonLog, None,
                 [("module", c.moduleName)], [])
    case None =>
      ParsedLine(raw, KeywordLevel(rec, raw), rec.plainTimestamp(raw), raw, PythonLog, None, [], [])
  }

  // --- JSON ------------------------------------------------------------------

  /** Keys already carried by dedicated fields of a parsed JSON line. */
  const KnownJsonKeys: seq<string> :=
    ["level", "severity", "log.level", "timestamp", "time", "@timestamp", "ts",
     "message", "msg", "log", "stream"]

  const JsonLevelKeys: seq<string> := ["level", "severity", "log.level"]
  const JsonTimestampKeys: seq<string> := ["timestamp", "time", "@timestamp", "ts"]
  const JsonMessageKeys: seq<string> := ["message", "msg", "log"]

  /** `Value::get` on an object; other values have no fields. */
  function Get(doc: JsonDoc, key: string): (r: Option<JsonValue>)
    ensures doc.JNonObject? ==> r.None?
    ensures doc.JObject? ==> (r.Some? <==> exists i :: 0 <= i < |doc.entries| && doc.entries[i].0 == key)
    ensures r.Some? ==> exists i :: 0 <= i < |doc.entries| && doc.entries[i] == (key, r.value)
  {
    match doc
    case JNonObject => None
    case JObject(es) => Lookup(es, key)
  }

  function Lookup(es: seq<(string, JsonValue)>, key: string): (r: Option<JsonValue>)
    ensures r.Some? <==> exists i :: 0 <= i < |es| && es[i].0 == key
    ensures r.Some? ==> exists i :: 0 <= i < |es| && es[i] == (key, r.value)
  {
    if es == [] then None
    else if es[0].0 == key then Some(es[0].1)
    else
      var r := Lookup(es[1..], key);
      assert r.Some? ==> es[1..][0].0 == key || exists i :: 1 <= i < |es| && es[i].0 == key;
      r
  }

  /** The values under `keys`, in order. */
  function Lookups(doc: JsonDoc, keys: seq<string>): (r: seq<Option<JsonValue>>)
    ensures |r| == |keys| && forall i :: 0 <= i < |keys| ==> r[i] == Get(doc, keys[i])
  {
    seq(|keys|, i requires 0 <= i < |keys| => Get(doc, keys[i]))
  }

  /** The first value that is there. */
  function FirstSome(vs: seq<Option<JsonValue>>): Option<JsonValue> {
    if vs == [] then None
    else if vs[0].Some? then vs[0]
    else FirstSome(vs[1..])
  }

  lemma {:induction false} FirstSomeEarliest(vs: seq<Option<JsonValue>>)
    ensures FirstSome(vs).Some? <==> exists i :: 0 <= i < |vs| && vs[i].Some?
    ensures FirstSome(vs).Some? ==>
              exists i :: 0 <= i < |vs| && vs[i] == FirstSome(vs) && forall j :: 0 <= j < i ==> vs[j].None?
    decreases |vs|
  {
    if vs != [] && vs[0].None? {
      FirstSomeEarliest(vs[1..]);
      assert forall i :: 1 <= i < |vs| ==> vs[i] == vs[1..][i - 1];
      if FirstSome(vs).Some? {
        var i :| 0 <= i < |vs[1..]| && vs[1..][i] == FirstSome(vs)
                 && forall j :: 0 <= j < i ==> vs[1..][j].None?;
        assert forall j :: 0 <= j < i + 1 ==> vs[j].None?;
      }
    }
  }

  /** The value under the first of `keys` that is present (an `or_else` chain). */
  function FirstPresent(doc: JsonDoc, keys: seq<string>): Option<JsonValue> {
    FirstSome(Lookups(doc, keys))
  }

  /** The chain finds a value exactly when some key is present, and then it
      is the value of the earliest present key. */
  lemma FirstPresentEarliest(doc: JsonDoc, keys: seq<string>)
    ensures FirstPresent(doc, keys).Some? <==> exists i :: 0 <= i < |keys| && Get(doc, keys[i]).Some?
    ensures FirstPresent(doc, keys).Some? ==>
              exists i :: 0 <= i < |keys| && Get(doc, keys[i]) == FirstPresent(doc, keys)
                          && forall j :: 0 <= j < i ==> Get(doc, keys[j]).None?
  {
    FirstSomeEarliest(Lookups(doc, keys));
  }

  function AsStr(v: Option<JsonValue>): Option<string> {
    match v
    case Some(JString(s)) => Some(s)
    case _ => None
  }

  /** The level read from the first present level field, if it names one: a
      string by name, an unsigned number by band. */
  function FieldLevel(doc: JsonDoc): Option<LogLevel> {
    match FirstPresent(doc, JsonLevelKeys)
    case Some(JString(s)) => ParseLevelStr(s)
    case Some(JNumber(_, Some(n))) => ParseNumericLevel(n)
    case _ => None
  }

  /** The level of a JSON line: from the level field, else from the first level
      keyword in the first present message field when that is a string. */
  function JsonLevel(rec: Recognizers, doc: JsonDoc): (r: Option<LogLevel>)
    ensures forall s ::
              (FirstPresent(doc, JsonLevelKeys) == Some(JString(s)) && ParseLevelStr(s).Some?
               ==> r == ParseLevelStr(s))
    ensures forall t, n: nat ::
              (FirstPresent(doc, JsonLevelKeys) == Some(JNumber(t, Some(n))) && 1 <= n <= 60
               ==> r.Some? && 10 * r.value.Rank() < n <= 10 * r.value.Rank() + 10)
    ensures FieldLevel(doc).None? && AsStr(FirstPresent(doc, JsonMessageKeys)).None? ==> r.None?
    ensures FieldLevel(doc).None? && AsStr(FirstPresent(doc, JsonMessageKeys)).Some?
            ==> r == KeywordLevel(rec, AsStr(FirstPresent(doc, JsonMessageKeys)).value)
  {
    var fromField := FieldLevel(doc);
    if fromField.Some? then fromField
    else
      match AsStr(FirstPresent(doc, JsonMessageKeys))
      case Some(m) => KeywordLevel(rec, m)
      case None => None
  }

  /** The rendering of an extra JSON field's value. */
  function FormatJsonValue(v: JsonValue): string {
    match v
    case JString(s) => "\"" + s + "\""
    case JNumber(text, _) => text
    case JBool(b) => if b then "true" else "false"
    case JNull => "null"
    case JCompound(compact) => compact
  }

  /** The entries whose key is not a known key, with their values rendered. */
  function ExtraEntries(es: seq<(string, JsonValue)>): (r: seq<(string, string)>)
    ensures |r| <= |es|
    ensures forall k, v :: (k, v) in r <==>
              exists i :: 0 <= i < |es| && es[i].0 == k && k !in KnownJsonKeys
                                          && FormatJsonValue(es[i].1) == v
  {
    if es == [] then []
    else
      var rest := ExtraEntries(es[1..]);
      assert forall i :: 1 <= i < |es| ==> es[i] == es[1..][i - 1];
      if es[0].0 in KnownJsonKeys then rest
      else [(es[0].0, FormatJsonValue(es[0].1))] + rest
  }

  function JsonExtras(doc: JsonDoc): seq<(string, string)> {
    match doc
    case JNonObject => []
    case JObject(es) => ExtraEntries(es)
  }

  function ParseJsonLine(rec: Recognizers, raw: string): (p: ParsedLine)
    ensures p.raw == raw && p.format == Json
    ensures rec.jsonParse(Trim(raw)).None? ==> p == Degraded(raw, Json)
    ensures rec.jsonParse(Trim(raw)).Some? ==>
              var doc := rec.jsonParse(Trim(raw)).value;
              p.level == JsonLevel(rec, doc)
              && p.timestamp == AsStr(FirstPresent(doc, JsonTimestampKeys))
              && p.message == (match AsStr(FirstPresent(doc, JsonMessageKeys))
                               case Some(m) => TrimEndNewlines(m)
                               case None => Trim(raw))
              && p.prettyJson == rec.jsonPretty(doc)
              && p.extraFields == JsonExtras(doc)
  {
    var trimmed := Trim(raw);
    match rec.jsonParse(trimmed)
    case None => Degraded(raw, Json)
    case Some(doc) =>
      var message := match AsStr(FirstPresent(doc, JsonMessageKeys))
        case Some(m) => TrimEndNewlines(m)
        case None => trimmed;
      ParsedLine(raw, JsonLevel(rec, doc), AsStr(FirstPresent(doc, JsonTimestampKeys)), message,
                 Json, rec.jsonPretty(doc), JsonExtras(doc), [])
  }

  /** No extra field of a JSON line carries a known key. */
  lemma JsonExtrasUnknownKeys(rec: Recognizers, raw: string)
    ensures forall k, v :: (k, v) in ParseJsonLine(rec, raw).extraFields ==> k !in KnownJsonKeys
  {
  }

  // --- logfmt ----------------------------------------------------------------

  const LogfmtLevelKeys: seq<string> := ["level", "severity", "log.level"]
  const LogfmtTimestampKeys: seq<string> := ["ts", "time", "timestamp", "@timestamp"]
  const LogfmtMessageKeys: seq<string> := ["msg", "message"]

  /** A key that is claimed by a dedicated field. */
  predicate Reserved(key: string) {
    key in LogfmtLevelKeys || key in LogfmtTimestampKeys || key in LogfmtMessageKeys
  }

  /** The quoted group if it matched, else the bare group, else empty. */
  function PairValue(p: LogfmtPair): string {
    p.quoted.Or(p.bare).GetOr([])
  }

  /** The fields filled while scanning `key=value` pairs. */
  datatype LogfmtState = LogfmtState(level: Option<LogLevel>, timestamp: Option<string>,
                                     message: Option<string>, extras: seq<(string, string)>)

  const LogfmtStart := LogfmtState(None, None, None, [])

  /** One pair: a level key fills the level while it is still unset (a value
      that names no level leaves it unset), a timestamp or message key fills its
      field if empty, and anything else is an extra field. */
  function LogfmtStep(st: LogfmtState, p: LogfmtPair): LogfmtState {
    var v := PairValue(p);
    if p.key in LogfmtLevelKeys && st.level.None? then st.(level := ParseLevelStr(v))
    else if p.key in LogfmtTimestampKeys && st.timestamp.None? then st.(timestamp := Some(v))
    else if p.key in LogfmtMessageKeys && st.message.None? then st.(message := Some(v))
    else st.(extras := st.extras + [(p.key, v)])
  }

  function LogfmtFold(st: LogfmtState, ps: seq<LogfmtPair>): LogfmtState
    decreases |ps|
  {
    if ps == [] then st else LogfmtFold(LogfmtStep(st, ps[0]), ps[1..])
  }

  /** Reference reading of the level: the first level-keyed pair whose value
      names a level. */
  function FirstLevel(ps: seq<LogfmtPair>): Option<LogLevel> {
    if ps == [] then None
    else if ps[0].key in LogfmtLevelKeys && ParseLevelStr(PairValue(ps[0])).Some?
    then ParseLevelStr(PairValue(ps[0]))
    else FirstLevel(ps[1..])
  }

  /** Reference reading of a text field: the value of the first pair whose key
      is one of `keys`. */
  function FirstWithKey(ps: seq<LogfmtPair>, keys: seq<string>): Option<string> {
    if ps == [] then None
    else if ps[0].key in keys then Some(PairValue(ps[0]))
    else FirstWithKey(ps[1..], keys)
  }

  /** What the scan computes from any starting state, in reference terms. */
  lemma {:induction false} LogfmtFoldFields(st: LogfmtState, ps: seq<LogfmtPair>)
    ensures LogfmtFold(st, ps).level == (if st.level.Some? then st.level else FirstLevel(ps))
    ensures LogfmtFold(st, ps).timestamp == st.timestamp.Or(FirstWithKey(ps, LogfmtTimestampKeys))
    ensures LogfmtFold(st, ps).message == st.message.Or(FirstWithKey(ps, LogfmtMessageKeys))
    decreases |ps|
  {
    if ps != [] {
      LogfmtFoldFields(LogfmtStep(st, ps[0]), ps[1..]);
    }
  }

  /** Folding only appends extra fields. */
  lemma {:induction false} LogfmtFoldExtras(st: LogfmtState, ps: seq<LogfmtPair>)
    ensures |st.extras| <= |LogfmtFold(st, ps).extras|
    ensures LogfmtFold(st, ps).extras[..|st.extras|] == st.extras
    decreases |ps|
  {
    if ps != [] {
      LogfmtFoldExtras(LogfmtStep(st, ps[0]), ps[1..]);
    }
  }

  lemma {:induction false} LogfmtFoldSplit(st: LogfmtState, ps: seq<LogfmtPair>, j: nat)
    requires j <= |ps|
    ensures LogfmtFold(st, ps) == LogfmtFold(LogfmtFold(st, ps[..j]), ps[j..])
    decreases j
  {
    if j > 0 {
      assert ps[..j][1..] == ps[1..][..j - 1] && ps[j..] == ps[1..][j - 1..];
      LogfmtFoldSplit(LogfmtStep(st, ps[0]), ps[1..], j - 1);
    }
  }

  lemma {:induction false} FirstWithKeyPrefix(ps: seq<LogfmtPair>, keys: seq<string>, i: nat, j: nat)
    requires i < j <= |ps| && ps[i].key in keys
    ensures FirstWithKey(ps[..j], keys).Some?
  {
    if ps[0].key !in keys {
      assert ps[..j][1..] == ps[1..][..j - 1];
      FirstWithKeyPrefix(ps[1..], keys, i - 1, j - 1);
    }
  }

  /** The level, timestamp and message key groups are disjoint. */
  lemma ReservedKeysDisjoint(k: string)
    ensures k in LogfmtTimestampKeys ==> k !in LogfmtLevelKeys && k !in LogfmtMessageKeys
  {
  }

  /** A timestamp key after the first one is kept as an extra field. */
  lemma LogfmtLaterTimestampIsExtra(ps: seq<LogfmtPair>, i: nat, j: nat)
    requires i < j < |ps|
    requires ps[i].key in LogfmtTimestampKeys && ps[j].key in LogfmtTimestampKeys
    ensures (ps[j].key, PairValue(ps[j])) in LogfmtFold(LogfmtStart, ps).extras
  {
    var mid := LogfmtFold(LogfmtStart, ps[..j]);
    LogfmtFoldFields(LogfmtStart, ps[..j]);
    LogfmtFoldExtras(LogfmtStart, ps[..j]);
    FirstWithKeyPrefix(ps, LogfmtTimestampKeys, i, j);
    var next := LogfmtStep(mid, ps[j]);
    TimestampTakenStep(mid, ps[j]);
    LogfmtFoldAt(LogfmtStart, ps, j);
    LogfmtFoldExtras(next, ps[j + 1..]);
    var extras := LogfmtFold(next, ps[j + 1..]).extras;
    assert extras[|mid.extras|] == extras[..|next.extras|][|mid.extras|];
  }

  /** Once the timestamp is taken, a timestamp-keyed pair becomes an extra. */
  lemma TimestampTakenStep(st: LogfmtState, p: LogfmtPair)
    requires st.timestamp.Some? && p.key in LogfmtTimestampKeys
    ensures LogfmtStep(st, p).extras == st.extras + [(p.key, PairValue(p))]
  {
    ReservedKeysDisjoint(p.key);
  }

  /** The scan over `ps` passes through pair `j` after the prefix before it. */
  lemma LogfmtFoldAt(st: LogfmtState, ps: seq<LogfmtPair>, j: nat)
    requires j < |ps|
    ensures LogfmtFold(st, ps) == LogfmtFold(LogfmtStep(LogfmtFold(st, ps[..j]), ps[j]), ps[j + 1..])
  {
    LogfmtFoldSplit(st, ps, j);
    assert ps[j..][0] == ps[j] && ps[j..][1..] == ps[j + 1..];
  }

  /** Without reserved keys every pair becomes an extra field, in order. */
  lemma {:induction false} LogfmtUnreserved(st: LogfmtState, ps: seq<LogfmtPair>)
    requires forall i :: 0 <= i < |ps| ==> !Reserved(ps[i].key)
    ensures LogfmtFold(st, ps).extras == st.extras + seq(|ps|, i requires 0 <= i < |ps| => (ps[i].key, PairValue(ps[i])))
    ensures LogfmtFold(st, ps).level == st.level && LogfmtFold(st, ps).timestamp == st.timestamp
    ensures LogfmtFold(st, ps).message == st.message
    decreases |ps|
  {
    if ps != [] {
      LogfmtUnreserved(LogfmtStep(st, ps[0]), ps[1..]);
    }
  }

  /** Whether pair `i` is taken by a dedicated field rather than kept as an
      extra: a level key while no earlier level-keyed pair named a level
      (whether or not this one names one), or the first timestamp key, or the
      first message key. */
  predicate Consumed(ps: seq<LogfmtPair>, i: nat)
    requires i < |ps|
  {
    var k := ps[i].key;
    || (k in LogfmtLevelKeys && FirstLevel(ps[..i]).None?)
    || (k in LogfmtTimestampKeys && FirstWithKey(ps[..i], LogfmtTimestampKeys).None?)
    || (k in LogfmtMessageKeys && FirstWithKey(ps[..i], LogfmtMessageKeys).None?)
  }

  /** Reference list of extra fields: every pair that is not consumed, as
      (key, value), in the order the pairs occur. */
  function LogfmtExtrasRef(ps: seq<LogfmtPair>): seq<(string, string)>
    decreases |ps|
  {
    if ps == [] then []
    else
      var last := ps[|ps| - 1];
      LogfmtExtrasRef(ps[..|ps| - 1])
      + (if Consumed(ps, |ps| - 1) then [] else [(last.key, PairValue(last))])
  }

  /** The scan from the start keeps exactly the reference extras. */
  lemma {:induction false} LogfmtExtrasExact(ps: seq<LogfmtPair>)
    ensures LogfmtFold(LogfmtStart, ps).extras == LogfmtExtrasRef(ps)
    decreases |ps|
  {
    if ps != [] {
      var init := ps[..|ps| - 1];
      LogfmtExtrasExact(init);
      LogfmtFoldFields(LogfmtStart, init);
      LogfmtFoldAt(LogfmtStart, ps, |ps| - 1);
      assert ps[|ps|..] == [] && ps[..|ps| - 1] == init;
    }
  }

  /** A level-keyed pair whose value names no level is still consumed, and a
      later level key is then read: "level=foo level=info" is an Info line
      with no extra fields. */
  lemma LogfmtUnnamedLevelConsumed()
    ensures var ps := [LogfmtPair("level", None, Some("foo")), LogfmtPair("level", None, Some("info"))];
            && FirstLevel(ps) == Some(Info) && LogfmtExtrasRef(ps) == []
  {
    var ps := [LogfmtPair("level", None, Some("foo")), LogfmtPair("level", None, Some("info"))];
    assert ParseLevelStr("foo").None? && ParseLevelStr("info") == Some(Info);
    assert ps[..1] == [ps[0]] && ps[..1][1..] == [] && ps[1..] == [ps[1]] && ps[..0] == [];
  }

  /** The parsed line of a logfmt text whose pair scan ends in state `st`. */
  function LogfmtLine(raw: string, st: LogfmtState): ParsedLine {
    ParsedLine(raw, st.level, st.timestamp, st.message.GetOr(raw), Logfmt, None, st.extras, [])
  }

  /** Scan the `key=value` pairs of a logfmt line; the first timestamp and
      message keys win, a level key is used while no level has been found, and
      every other pair is kept in order as an extra field. */
  method ParseLogfmtLine(rec: Recognizers, raw: string) returns (p: ParsedLine)
    ensures p == LogfmtLine(raw, LogfmtFold(LogfmtStart, rec.logfmtPairs(raw)))
    ensures p.level == FirstLevel(rec.logfmtPairs(raw))
    ensures p.timestamp == FirstWithKey(rec.logfmtPairs(raw), LogfmtTimestampKeys)
    ensures p.message == FirstWithKey(rec.logfmtPairs(raw), LogfmtMessageKeys).GetOr(raw)
    ensures p.extraFields == LogfmtExtrasRef(rec.logfmtPairs(raw))
  {
    var pairs := rec.logfmtPairs(raw);
    var level: Option<LogLevel> := None;
    var timestamp: Option<string> := None;
    var message: Option<string> := None;
    var extras: seq<(string, string)> := [];
    var i := 0;
    while i < |pairs|
      invariant 0 <= i <= |pairs|
      invariant LogfmtFold(LogfmtState(level, timestamp, message, extras), pairs[i..])
                == LogfmtFold(LogfmtStart, pairs)
    {
      var key := pairs[i].key;
      var value := PairValue(pairs[i]);
      assert pairs[i..][0] == pairs[i] && pairs[i..][1..] == pairs[i + 1..];
      if key in LogfmtLevelKeys && level.None? {
        level := ParseLevelStr(value);
      } else if key in LogfmtTimestampKeys && timestamp.None? {
        timestamp := Some(value);
      } else if key in LogfmtMessageKeys && message.None? {
        message := Some(value);
      } else {
        extras := extras + [(key, value)];
      }
      i := i + 1;
    }
    assert pairs[i..] == [];
    LogfmtFoldFields(LogfmtStart, pairs);
    LogfmtExtrasExact(pairs);
    p := ParsedLine(raw, level, timestamp, message.GetOr(raw), Logfmt, None, extras, []);
  }

  // --- access log ------------------------------------------------------------

  /** The extra fields of an access-log line, in push order. */
  function AccessExtras(c: AccessCaps): seq<(string, string)> {
    [("ip", c.ip)]
    + (if c.user != "-" then [("user", c.user)] else [])
    + [("bytes", c.bytes)]
    + (if c.referer.Some? && c.referer.value != "-" then [("referer", c.referer.value)] else [])
    + (if c.userAgent.Some? then [("ua", c.userAgent.value)] else [])
  }

  /** The status capture read as a `u16`, 0 when it does not parse. */
  function AccessStatus(c: AccessCaps): (n: nat)
    ensures n < 0x1_0000
  {
    ParseUnsigned(Codes(c.status), 0x1_0000).GetOr(0)
  }

  function AccessLine(raw: string, c: AccessCaps): ParsedLine {
    var status := AccessStatus(c);
    ParsedLine(raw, StatusToLevel(status), Some(c.timestamp),
               c.httpMethod + " " + c.path + " " + NatToString(status), AccessLog, None,
               AccessExtras(c), [])
  }

  /** Keys and values of the access-log extra fields: the IP first, the user
      unless it is "-", the byte count, the referer unless absent or "-", and
      the user agent when present. */
  lemma AccessExtrasShape(c: AccessCaps)
    ensures 2 <= |AccessExtras(c)| <= 5 && AccessExtras(c)[0] == ("ip", c.ip)
    ensures ("user", c.user) in AccessExtras(c) <==> c.user != "-"
    ensures ("bytes", c.bytes) in AccessExtras(c)
    ensures (exists v :: ("referer", v) in AccessExtras(c))
            <==> c.referer.Some? && c.referer.value != "-"
    ensures (exists v :: ("ua", v) in AccessExtras(c)) <==> c.userAgent.Some?
  {
    var e := AccessExtras(c);
    if c.referer.Some? && c.referer.value != "-" {
      assert ("referer", c.referer.value) in e;
    }
    if c.userAgent.Some? {
      assert ("ua", c.userAgent.value) in e;
    }
  }

  /** A canonical three-digit status is echoed verbatim in the message. */
  lemma AccessMessage(raw: string, c: AccessCaps)
    requires |c.status| == 3 && AllDigits(c.status) && c.status[0] != '0'
    ensures AccessLine(raw, c).message == c.httpMethod + " " + c.path + " " + c.status
    ensures AccessLine(raw, c).level.Some?
  {
    var d := Codes(c.status);
    assert forall i :: 0 <= i < |d| ==> IsDigitCode(d[i]);
    assert d[0] != '+' as int;
    NatToStringOfDigits(c.status);
    assert DigitsValue(d) < 1000 by {
      assert DigitsValue(d) == DigitsValue(d[..2]) * 10 + (d[2] - '0' as int);
      assert DigitsValue(d[..2]) == DigitsValue(d[..2][..1]) * 10 + (d[1] - '0' as int);
      assert d[..2][..1] == [d[0]];
      assert DigitsValue([d[0]]) == DigitsValue([]) * 10 + (d[0] - '0' as int);
    }
  }

  /** Parse a combined-format access-log line; a line the pattern does not
      match degrades to its raw text. */
  method ParseAccessLogLine(rec: Recognizers, raw: string) returns (p: ParsedLine)
    ensures rec.access(raw).None? ==> p == Degraded(raw, AccessLog)
    ensures rec.access(raw).Some? ==> p == AccessLine(raw, rec.access(raw).value)
  {
    match rec.access(raw)
    case None =>
      p := Degraded(raw, AccessLog);
    case Some(c) =>
      var status := AccessStatus(c);
      var extras: seq<(string, string)> := [];
      extras := extras + [("ip", c.ip)];
      if c.user != "-" {
        extras := extras + [("user", c.user)];
      }
      ghost var users := [("ip", c.ip)] + (if c.user != "-" then [("user", c.user)] else []);
      assert extras == users;
      extras := extras + [("bytes", c.bytes)];
      if c.referer.Some? {
        if c.referer.value != "-" {
          extras := extras + [("referer", c.referer.value)];
        }
      }
      ghost var referers := users + [("bytes", c.bytes)]
        + (if c.referer.Some? && c.referer.value != "-" then [("referer", c.referer.value)] else []);
      assert extras == referers;
      if c.userAgent.Some? {
        extras := extras + [("ua", c.userAgent.value)];
      }
      p := ParsedLine(raw, StatusToLevel(status), Some(c.timestamp),
                      c.httpMethod + " " + c.path + " " + NatToString(status), AccessLog, None,
                      extras, []);
  }

  // ---------------------------------------------------------------------------
  // Dispatch
  // ---------------------------------------------------------------------------

  /** The extractor of `format` applied to `raw`, before the template is set. */
  function Extract(rec: Recognizers, raw: string, format: LogFormat): ParsedLine {
    match format
    case Json => ParseJsonLine(rec, raw)
    case Syslog => ParseSyslogLine(rec, raw)
    case Logfmt => LogfmtLine(raw, LogfmtFold(LogfmtStart, rec.logfmtPairs(raw)))
    case Klog => ParseKlogLine(rec, raw)
    case Log4j => ParseLog4jLine(rec, raw)
    case PythonLog => ParsePythonLogLine(rec, raw)
    case AccessLog =>
      (match rec.access(raw)
       case None => Degraded(raw, AccessLog)
       case Some(c) => AccessLine(raw, c))
    case Plain => ParsePlainLine(rec, raw)
  }

  /** Parse one line in the given format. The result always keeps the raw
      text, carries the format it was parsed with, and has the template of the
      raw text. */
  method ParseLine(rec: Recognizers, raw: string, format: LogFormat) returns (p: ParsedLine)
    ensures p == Extract(rec, raw, format).(template := rec.template(raw))
    ensures p.raw == raw && p.format == format && p.template == rec.template(raw)
  {
    match format {
      case Json => p := ParseJsonLine(rec, raw);
      case Syslog => p := ParseSyslogLine(rec, raw);
      case Logfmt => p := ParseLogfmtLine(rec, raw);
      case Klog => p := ParseKlogLine(rec, raw);
      case Log4j => p := ParseLog4jLine(rec, raw);
      case PythonLog => p := ParsePythonLogLine(rec, raw);
      case AccessLog => p := ParseAccessLogLine(rec, raw);
      case Plain => p := ParsePlainLine(rec, raw);
    }
    p := p.(template := rec.template(raw));
  }

  /** Klog, access-log and JSON lines that their format does not recognise keep
      only their raw text as the message. */
  lemma MismatchDegrades(rec: Recognizers, raw: string, format: LogFormat)
    requires (format == Klog && MatchKlog(rec.isDigit, raw).None?)
             || (format == AccessLog && rec.access(raw).None?)
             || (format == Json && rec.jsonParse(Trim(raw)).None?)
    ensures var p := Extract(rec, raw, format);
            p.level.None? && p.timestamp.None? && p.message == raw && p.extraFields == []
  {
  }
}
