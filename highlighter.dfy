/** Line styling: a parsed line becomes a list of styled spans, chosen by the
    line's format. Only the JSON, syslog and plain arms exist. */
module Highlighter {
  import opened Common
  import opened Parser

  /** The terminal colours the styling uses; `Indexed` stands for any other
      colour a caller may pass as a background. */
  datatype Color = Red | Yellow | Green | DarkGray | Indexed(code: nat)

  /** A terminal style: foreground, background and the bold modifier; `None`
      leaves the terminal's own colour. */
  datatype Style = Style(fg: Option<Color>, bg: Option<Color>, bold: bool)

  datatype Span = Span(content: string, style: Style)

  const DefaultStyle: Style := Style(None, None, false)

  /** The text a line of spans shows. */
  function Text(spans: seq<Span>): string
    decreases |spans|
  {
    if spans == [] then [] else spans[0].content + Text(spans[1..])
  }

  lemma {:induction false} TextAppend(a: seq<Span>, b: seq<Span>)
    ensures Text(a + b) == Text(a) + Text(b)
    decreases |a|
  {
    if a == [] {
      assert a + b == b;
    } else {
      assert (a + b)[1..] == a[1..] + b;
      TextAppend(a[1..], b);
    }
  }

  lemma TextOne(a: Span)
    ensures Text([a]) == a.content
  {
    assert Text([a]) == a.content + Text([]);
  }

  lemma TextPair(a: Span, b: Span)
    ensures Text([a, b]) == a.content + b.content
  {
    assert [a, b][1..] == [b];
    TextOne(b);
  }

  /** `level_style`: the colour of a line's level. */
  function LevelStyle(level: Option<LogLevel>): (s: Style)
    ensures s.bg.None?
    ensures s.bold <==> level == Some(Fatal)
    ensures s.fg.None? <==> level.None?
    ensures s.fg == Some(Red) <==> level == Some(Error) || level == Some(Fatal)
    ensures s.fg == Some(DarkGray) <==> level == Some(Debug) || level == Some(Trace)
  {
    match level
    case Some(Fatal) => Style(Some(Red), None, true)
    case Some(Error) => Style(Some(Red), None, false)
    case Some(Warn) => Style(Some(Yellow), None, false)
    case Some(Info) => Style(Some(Green), None, false)
    case Some(Debug) => Style(Some(DarkGray), None, false)
    case Some(Trace) => Style(Some(DarkGray), None, false)
    case None => DefaultStyle
  }

  /** The warning and info colours are distinct from each other and from
      every other level's, so those levels are recognisable by colour. */
  lemma LevelStyleDistinguishes(a: Option<LogLevel>, b: Option<LogLevel>)
    requires LevelStyle(a) == LevelStyle(b)
    ensures a == b || ({a, b} <= {Some(Debug), Some(Trace)})
  {
  }

  function TimestampStyle(): (s: Style)
    ensures s.fg == Some(DarkGray) && s.bg.None? && !s.bold
  {
    Style(Some(DarkGray), None, false)
  }

  /** Where the timestamp's text ends in the raw line: just after its first
      occurrence, if it has a timestamp that occurs at all. */
  function TimestampEnd(p: ParsedLine): (r: Option<nat>)
    ensures r.None? <==> p.timestamp.None? || !Contains(p.raw, p.timestamp.value)
    ensures r.Some? ==> && |p.timestamp.value| <= r.value <= |p.raw|
                        && OccursAt(p.raw, p.timestamp.value, r.value - |p.timestamp.value|)
                        && forall j: nat :: j < r.value - |p.timestamp.value| ==> !OccursAt(p.raw, p.timestamp.value, j)
  {
    match p.timestamp
    case None => None
    case Some(ts) =>
      match Find(p.raw, ts)
      case None => None
      case Some(pos) => Some(pos + |ts|)
  }

  /** `highlight_plain_line`: the raw text up to the end of the timestamp in
      the timestamp colour, the rest in the level colour; the whole raw text
      in the level colour when there is no timestamp to find. */
  function HighlightPlainLine(p: ParsedLine): (r: seq<Span>)
    ensures Text(r) == p.raw
    ensures |r| == (if TimestampEnd(p).Some? then 2 else 1)
    ensures r[|r| - 1].style == LevelStyle(p.level)
    ensures |r| == 2 ==> r[0].style == TimestampStyle()
                         && r[0].content == p.raw[..TimestampEnd(p).value]
  {
    match TimestampEnd(p)
    case Some(e) =>
      var spans := [Span(p.raw[..e], TimestampStyle()), Span(p.raw[e..], LevelStyle(p.level))];
      TextPair(spans[0], spans[1]);
      assert p.raw[..e] + p.raw[e..] == p.raw;
      spans
    case None =>
      var spans := [Span(p.raw, LevelStyle(p.level))];
      TextOne(spans[0]);
      spans
  }

  /** `highlight_syslog_line`, whose body is the plain highlighter's. */
  function HighlightSyslogLine(p: ParsedLine): (r: seq<Span>)
    ensures Text(r) == p.raw
    ensures r == HighlightPlainLine(p)
  {
    HighlightPlainLine(p)
  }

  /** The three-letter badge of the JSON highlighter, `???` without a level. */
  function Badge(level: Option<LogLevel>): (r: string)
    ensures |r| == 3 && IsAscii(r)
  {
    match level
    case Some(Fatal) => "FTL"
    case Some(Error) => "ERR"
    case Some(Warn) => "WRN"
    case Some(Info) => "INF"
    case Some(Debug) => "DBG"
    case Some(Trace) => "TRC"
    case None => "???"
  }

  /** The badge of a level is its short name. */
  lemma BadgeIsShortName(level: LogLevel)
    ensures Badge(Some(level)) == level.ShortName()
  {
  }

  function Bold(s: Style): Style {
    s.(bold := true)
  }

  /** `highlight_json_line`: the bracketed badge in bold level colour, the
      timestamp and a space when there is one, then the message. */
  function HighlightJsonLine(p: ParsedLine): (r: seq<Span>)
    ensures |r| == (if p.timestamp.Some? then 3 else 2)
    ensures r[0] == Span("[" + Badge(p.level) + "] ", Bold(LevelStyle(p.level)))
    ensures p.timestamp.Some? ==> r[1] == Span(p.timestamp.value + " ", TimestampStyle())
    ensures r[|r| - 1] == Span(p.message, LevelStyle(p.level))
    ensures Text(r) == "[" + Badge(p.level) + "] "
                       + (if p.timestamp.Some? then p.timestamp.value + " " else []) + p.message
  {
    var style := LevelStyle(p.level);
    var badge := Span("[" + Badge(p.level) + "] ", Bold(style));
    var stamp := if p.timestamp.Some? then [Span(p.timestamp.value + " ", TimestampStyle())] else [];
    var spans := [badge] + stamp + [Span(p.message, style)];
    TextAppend([badge] + stamp, [Span(p.message, style)]);
    TextAppend([badge], stamp);
    TextOne(Span(p.message, style));
    TextOne(badge);
    if p.timestamp.Some? then TextOne(stamp[0]); spans else spans
  }

  /** The formats the highlighter has an arm for. */
  predicate Styled(f: LogFormat) {
    f == Json || f == Syslog || f == Plain
  }

  /** `highlight_line`: the highlighter of the line's format. */
  function HighlightLine(p: ParsedLine): (r: seq<Span>)
    requires Styled(p.format)
    ensures p.format == Json ==> r == HighlightJsonLine(p)
    ensures p.format != Json ==> Text(r) == p.raw && r == HighlightPlainLine(p)
  {
    match p.format
    case Json => HighlightJsonLine(p)
    case Syslog => HighlightSyslogLine(p)
    case Plain => HighlightPlainLine(p)
  }
}
