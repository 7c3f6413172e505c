/** The offset arithmetic of the user interface: which token a column falls
    on, how many columns of a highlighted line come before its tokenized text,
    background overlays, and hit-testing of the context menu. Column offsets
    are byte lengths of UTF-8 text, as in Rust's `str::len`. */
module Ui {
  import opened Common
  import opened Parser
  import opened Highlighter

  /** Rust's `str::len`: the number of UTF-8 bytes. */
  function ByteLen(s: string): nat {
    |Utf8(s)|
  }

  lemma ByteLenAppend(s: string, t: string)
    ensures ByteLen(s + t) == ByteLen(s) + ByteLen(t)
  {
    Utf8Append(s, t);
  }

  lemma ByteLenAscii(s: string)
    requires IsAscii(s)
    ensures ByteLen(s) == |s|
  {
    Utf8Ascii(s);
  }

  // ---------------------------------------------------------------------------
  // Tokens under a column
  // ---------------------------------------------------------------------------

  /** A token of a line: its kind, if it is one the user can act on, and its
      text. The kinds belong to the tokenizer, which is not part of this
      model. */
  datatype Token<K> = Token(kind: Option<K>, raw: string)

  /** Total byte width of a list of tokens. */
  function Width<K>(tokens: seq<Token<K>>): nat
    decreases |tokens|
  {
    if tokens == [] then 0 else ByteLen(tokens[0].raw) + Width(tokens[1..])
  }

  /** What the token covering byte column `col` offers: its kind and text, or
      nothing for a token without a kind or a column past the end. */
  function TokenAt<K>(col: nat, tokens: seq<Token<K>>): Option<(K, string)>
    decreases |tokens|
  {
    if tokens == [] then None
    else
      var len := ByteLen(tokens[0].raw);
      if col < len then
        (if tokens[0].kind.Some? then Some((tokens[0].kind.value, tokens[0].raw)) else None)
      else TokenAt(col - len, tokens[1..])
  }

  /** `find_token_at_col`: walk the tokens with a running byte offset and
      stop at the first whose span holds the column. */
  method FindTokenAtCol<K>(col: nat, tokens: seq<Token<K>>) returns (r: Option<(K, string)>)
    ensures r == TokenAt(col, tokens)
  {
    var pos := 0;
    var i := 0;
    while i < |tokens|
      invariant 0 <= i <= |tokens| && pos <= col
      invariant TokenAt(col, tokens) == TokenAt(col - pos, tokens[i..])
    {
      var end := pos + ByteLen(tokens[i].raw);
      assert tokens[i..][1..] == tokens[i + 1..];
      if col >= pos && col < end {
        return if tokens[i].kind.Some? then Some((tokens[i].kind.value, tokens[i].raw)) else None;
      }
      pos := end;
      i := i + 1;
    }
    return None;
  }

  lemma {:induction false} WidthSnoc<K>(tokens: seq<Token<K>>, i: nat)
    requires i < |tokens|
    ensures Width(tokens[..i + 1]) == Width(tokens[..i]) + ByteLen(tokens[i].raw)
    decreases i
  {
    if i == 0 {
      assert tokens[..1][1..] == [];
    } else {
      assert tokens[..i + 1][1..] == tokens[1..][..i];
      assert tokens[..i][1..] == tokens[1..][..i - 1];
      WidthSnoc(tokens[1..], i - 1);
    }
  }

  /** A column inside token `i`'s byte span finds token `i`. */
  lemma {:induction false} TokenAtIndex<K>(col: nat, tokens: seq<Token<K>>, i: nat)
    requires i < |tokens|
    requires Width(tokens[..i]) <= col < Width(tokens[..i]) + ByteLen(tokens[i].raw)
    ensures TokenAt(col, tokens)
            == if tokens[i].kind.Some? then Some((tokens[i].kind.value, tokens[i].raw)) else None
    decreases i
  {
    if i > 0 {
      var len := ByteLen(tokens[0].raw);
      assert tokens[..i][1..] == tokens[1..][..i - 1];
      assert Width(tokens[..i]) == len + Width(tokens[1..][..i - 1]);
      TokenAtIndex(col - len, tokens[1..], i - 1);
    }
  }

  /** A column at or past the total width finds nothing. */
  lemma {:induction false} TokenAtBeyond<K>(col: nat, tokens: seq<Token<K>>)
    requires col >= Width(tokens)
    ensures TokenAt(col, tokens).None?
    decreases |tokens|
  {
    if tokens != [] {
      TokenAtBeyond(col - ByteLen(tokens[0].raw), tokens[1..]);
    }
  }

  /** A result is always one of the tokens, with its own kind and text. */
  lemma {:induction false} TokenAtIsAToken<K>(col: nat, tokens: seq<Token<K>>)
    ensures TokenAt(col, tokens).Some? ==>
              exists i :: 0 <= i < |tokens| && tokens[i].kind == Some(TokenAt(col, tokens).value.0)
                                            && tokens[i].raw == TokenAt(col, tokens).value.1
    decreases |tokens|
  {
    if tokens != [] && col >= ByteLen(tokens[0].raw) {
      var rest := tokens[1..];
      TokenAtIsAToken(col - ByteLen(tokens[0].raw), rest);
      if TokenAt(col, tokens).Some? {
        var i :| 0 <= i < |rest| && rest[i].kind == Some(TokenAt(col, tokens).value.0)
                                 && rest[i].raw == TokenAt(col, tokens).value.1;
        assert tokens[i + 1] == rest[i];
      }
    }
  }

  // ---------------------------------------------------------------------------
  // Prefixes of a highlighted line
  // ---------------------------------------------------------------------------

  /** `get_tokenizable_text`: a JSON line's message; for plain and syslog
      lines, the raw text after the timestamp when it occurs, else all of it. */
  function TokenizableText(p: ParsedLine): (r: string)
    requires Styled(p.format)
    ensures p.format != Json && TimestampEnd(p).None? ==> r == p.raw
  {
    if p.format == Json then p.message
    else
      match TimestampEnd(p)
      case Some(e) => p.raw[e..]
      case None => p.raw
  }

  /** `get_timestamp_prefix_len`: the bytes of a plain or syslog line up to
      the end of its timestamp, zero for JSON or when it does not occur. */
  function TimestampPrefixLen(p: ParsedLine): (r: nat)
    requires Styled(p.format)
    ensures p.format == Json || TimestampEnd(p).None? ==> r == 0
  {
    if p.format == Json then 0
    else
      match TimestampEnd(p)
      case Some(e) => ByteLen(p.raw[..e - |p.timestamp.value|]) + ByteLen(p.timestamp.value)
      case None => 0
  }

  /** `get_highlight_prefix_len`: the bytes the JSON highlighter puts before
      the message, the six of `[XXX] ` and the timestamp with its space. */
  function HighlightPrefixLen(p: ParsedLine): (r: nat)
    requires Styled(p.format)
    ensures p.format != Json ==> r == 0
    ensures p.format == Json ==> r >= 6
  {
    if p.format == Json then
      6 + (if p.timestamp.Some? then ByteLen(p.timestamp.value) + 1 else 0)
    else 0
  }

  /** The prefix lengths agree with the highlighter: the tokenized text is
      the last span's, and the spans before it take up exactly the bytes the
      two prefix lengths add up to. */
  lemma PrefixLengthsMatchSpans(p: ParsedLine)
    requires Styled(p.format)
    ensures var spans := HighlightLine(p);
            && spans[|spans| - 1].content == TokenizableText(p)
            && ByteLen(Text(spans[..|spans| - 1])) == HighlightPrefixLen(p) + TimestampPrefixLen(p)
  {
    var spans := HighlightLine(p);
    if p.format == Json {
      JsonPrefix(p);
    } else {
      match TimestampEnd(p)
      case Some(e) =>
        var ts := p.timestamp.value;
        assert spans[..1] == [spans[0]];
        TextOne(spans[0]);
        assert p.raw[..e] == p.raw[..e - |ts|] + ts;
        ByteLenAppend(p.raw[..e - |ts|], ts);
      case None =>
        assert spans[..0] == [];
    }
  }

  lemma JsonPrefix(p: ParsedLine)
    requires p.format == Json
    ensures var spans := HighlightJsonLine(p);
            ByteLen(Text(spans[..|spans| - 1])) == HighlightPrefixLen(p)
  {
    var spans := HighlightJsonLine(p);
    var badge := "[" + Badge(p.level) + "] ";
    assert IsAscii(badge);
    ByteLenAscii(badge);
    if p.timestamp.Some? {
      var ts := p.timestamp.value;
      assert spans[..2] == [spans[0], spans[1]];
      TextPair(spans[0], spans[1]);
      ByteLenAppend(badge, ts + " ");
      ByteLenAppend(ts, " ");
      ByteLenAscii(" ");
    } else {
      assert spans[..1] == [spans[0]];
      TextOne(spans[0]);
    }
  }

  /** For plain and syslog lines the prefix and the tokenized text split
      the raw line's bytes between them. */
  lemma PrefixAndTextSplitRaw(p: ParsedLine)
    requires Styled(p.format) && p.format != Json
    ensures TimestampPrefixLen(p) + ByteLen(TokenizableText(p)) == ByteLen(p.raw)
  {
    match TimestampEnd(p)
    case Some(e) =>
      var ts := p.timestamp.value;
      assert p.raw == p.raw[..e - |ts|] + ts + p.raw[e..];
      ByteLenAppend(p.raw[..e - |ts|] + ts, p.raw[e..]);
      ByteLenAppend(p.raw[..e - |ts|], ts);
    case None =>
  }

  // ---------------------------------------------------------------------------
  // Background overlay
  // ---------------------------------------------------------------------------

  /** `apply_bg_to_line`: the same spans with the same text, each with the
      given background over its own foreground and modifiers. */
  function ApplyBgToLine(spans: seq<Span>, bg: Color): (r: seq<Span>)
    ensures |r| == |spans|
    ensures forall i :: 0 <= i < |r| ==> (&& r[i].content == spans[i].content
                                          && r[i].style.fg == spans[i].style.fg
                                          && r[i].style.bold == spans[i].style.bold
                                          && r[i].style.bg == Some(bg))
  {
    seq(|spans|, i requires 0 <= i < |spans| => Span(spans[i].content, spans[i].style.(bg := Some(bg))))
  }

  /** The overlay leaves the text of the line as it was. */
  lemma {:induction false} ApplyBgKeepsText(spans: seq<Span>, bg: Color)
    ensures Text(ApplyBgToLine(spans, bg)) == Text(spans)
    decreases |spans|
  {
    if spans != [] {
      assert ApplyBgToLine(spans, bg)[1..] == ApplyBgToLine(spans[1..], bg);
      ApplyBgKeepsText(spans[1..], bg);
    }
  }

  /** A second overlay replaces the first. */
  lemma ApplyBgTwice(spans: seq<Span>, c: Color, d: Color)
    ensures ApplyBgToLine(ApplyBgToLine(spans, c), d) == ApplyBgToLine(spans, d)
  {
  }

  // ---------------------------------------------------------------------------
  // Context menu hit-testing
  // ---------------------------------------------------------------------------

  /** A terminal coordinate or size, Rust's `u16`. */
  type U16 = n: nat | n < 0x1_0000

  /** `u16` arithmetic wraps around (release build). */
  function Wrap16(n: int): (r: U16) {
    n % 0x1_0000
  }

  datatype Area = Area(width: U16, height: U16)

  /** An open context menu: its item labels and where it was requested. */
  datatype ContextMenu = ContextMenu(labels: seq<string>, position: (U16, U16))

  /** The widest label plus padding, 20 when there are none, plus the
      border. */
  function MenuWidth(labels: seq<string>): U16 {
    Wrap16(WidestLabel(labels) + 2)
  }

  function WidestLabel(labels: seq<string>): (r: U16)
    decreases |labels|
  {
    if labels == [] then 20
    else
      var w := Wrap16(Wrap16(ByteLen(labels[0])) + 2);
      if |labels| == 1 then w else Max(w, WidestLabel(labels[1..]))
  }

  function MenuHeight(labels: seq<string>): U16 {
    Wrap16(Wrap16(|labels|) + 2)
  }

  /** The menu's top-left corner: the requested position, pulled back so the
      menu fits the area when it can. */
  function MenuOrigin(menu: ContextMenu, area: Area): (r: (U16, U16))
    ensures r.0 <= menu.position.0 && r.1 <= menu.position.1
    ensures MenuWidth(menu.labels) <= area.width ==> r.0 + MenuWidth(menu.labels) <= area.width
    ensures MenuHeight(menu.labels) <= area.height ==> r.1 + MenuHeight(menu.labels) <= area.height
  {
    (Min(menu.position.0, SatSub(area.width, MenuWidth(menu.labels))),
     Min(menu.position.1, SatSub(area.height, MenuHeight(menu.labels))))
  }

  /** `menu_item_at_position`: the item whose row inside the menu's border
      was clicked. */
  function MenuItemAtPosition(menu: ContextMenu, column: U16, row: U16, area: Area): (r: Option<nat>)
    ensures r.Some? ==> r.value < |menu.labels|
    ensures r.Some? ==> row == Wrap16(MenuOrigin(menu, area).1 + 1) + r.value
  {
    var (x, y) := MenuOrigin(menu, area);
    var w, h := MenuWidth(menu.labels), MenuHeight(menu.labels);
    var contentX, contentY := Wrap16(x + 1), Wrap16(y + 1);
    var contentBottom := Wrap16(Wrap16(y + h) - 1);
    var right := Wrap16(Wrap16(x + w) - 1);
    if column >= contentX && column < right && row >= contentY && row < contentBottom then
      var itemIndex := row - contentY;
      if itemIndex < |menu.labels| then Some(itemIndex) else None
    else None
  }

  /** When nothing wraps, a click hits item `i` exactly when it lands in the
      menu's columns inside the border, on the `i`-th row below the top
      border. */
  lemma MenuHit(menu: ContextMenu, column: U16, row: U16, area: Area)
    requires |menu.labels| + 2 < 0x1_0000 && WidestLabel(menu.labels) + 2 < 0x1_0000
    requires MenuOrigin(menu, area).0 + MenuWidth(menu.labels) < 0x1_0000
    requires MenuOrigin(menu, area).1 + MenuHeight(menu.labels) < 0x1_0000
    ensures var (x, y) := MenuOrigin(menu, area);
            var r := MenuItemAtPosition(menu, column, row, area);
            && (r.Some? <==> x + 1 <= column < x + MenuWidth(menu.labels) - 1
                             && y + 1 <= row < y + 1 + |menu.labels|)
            && (r.Some? ==> r.value == row - y - 1)
  {
    var (x, y) := MenuOrigin(menu, area);
    var w, h := MenuWidth(menu.labels), MenuHeight(menu.labels);
    WrapSmall(|menu.labels|);
    WrapSmall(|menu.labels| + 2);
    WrapSmall(WidestLabel(menu.labels) + 2);
    assert h == |menu.labels| + 2 && w == WidestLabel(menu.labels) + 2;
    WrapSmall(x + 1);
    WrapSmall(y + 1);
    WrapSmall(y + h);
    WrapSmall(y + h - 1);
    WrapSmall(x + w);
    WrapSmall(x + w - 1);
  }

  lemma WrapSmall(n: int)
    requires 0 <= n < 0x1_0000
    ensures Wrap16(n) == n
  {
  }
}
