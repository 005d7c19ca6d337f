// The syntax highlighters: source text in, HTML out. Pieces of the source are
// escaped and some are wrapped in `<span class="...">`. Where the tokens are is
// up to regular expressions, which are parameters here; whatever they match, no
// source text is lost, added or turned into markup.

module Highlight {
  import opened Prelude

  // ---------- escaping, and reading HTML back ----------

  function EscapeChar(c: char): string {
    if c == '&' then "&amp;" else if c == '<' then "&lt;" else if c == '>' then "&gt;" else [c]
  }

  function Escape(s: string): string {
    if s == [] then [] else EscapeChar(s[0]) + Escape(s[1..])
  }

  // What follows the end of the tag that html starts in.
  function AfterTag(html: string): (r: string)
    ensures html != [] ==> |r| < |html|
    ensures html == [] ==> r == []
  {
    if html == [] then [] else if html[0] == '>' then html[1..] else AfterTag(html[1..])
  }

  // The text of an HTML fragment: tags dropped, the three entities decoded.
  function Text(html: string): string
    decreases |html|
  {
    if html == [] then []
    else if html[0] == '<' then Text(AfterTag(html))
    else if "&amp;" <= html then ['&'] + Text(html[5..])
    else if "&lt;" <= html then ['<'] + Text(html[4..])
    else if "&gt;" <= html then ['>'] + Text(html[4..])
    else [html[0]] + Text(html[1..])
  }

  lemma TextOfEscapedChar(c: char, rest: string)
    ensures Text(EscapeChar(c) + rest) == [c] + Text(rest)
  {
    var html := EscapeChar(c) + rest;
    if c == '&' {
      assert html[..5] == "&amp;" && html[5..] == rest;
    } else if c == '<' {
      assert html[..4] == "&lt;" && html[4..] == rest && html[1] == 'l';
    } else if c == '>' {
      assert html[..4] == "&gt;" && html[4..] == rest && html[1] == 'g';
    } else {
      assert html[0] == c && html[1..] == rest;
    }
  }

  lemma {:induction false} TextOfEscaped(s: string, rest: string)
    ensures Text(Escape(s) + rest) == s + Text(rest)
  {
    hide Text;
    if s == [] {
      assert Escape(s) + rest == rest;
    } else {
      TextOfEscaped(s[1..], rest);
      TextOfEscapedChar(s[0], Escape(s[1..]) + rest);
      assert Escape(s) + rest == EscapeChar(s[0]) + (Escape(s[1..]) + rest);
      assert s == [s[0]] + s[1..];
    }
  }

  // Escaped text holds no tag delimiters.
  lemma {:induction false} EscapedHasNoMarkup(s: string)
    ensures '<' !in Escape(s) && '>' !in Escape(s)
  {
    if s != [] {
      EscapedHasNoMarkup(s[1..]);
    }
  }

  lemma {:induction false} TagIsDropped(inner: string, rest: string)
    requires '>' !in inner
    ensures AfterTag(inner + ['>'] + rest) == rest
  {
    var html := inner + ['>'] + rest;
    if inner == [] {
      assert html == ['>'] + rest;
      assert html[1..] == rest;
    } else {
      TagIsDropped(inner[1..], rest);
      assert html[1..] == inner[1..] + ['>'] + rest;
      assert html[0] == inner[0] && inner[0] in inner;
    }
  }

  // ---------- rendered pieces ----------

  // A piece of the source, wrapped in a span of some class or bare.
  datatype Piece = Piece(class_: Option<string>, text: string)

  const CLASSES: seq<string> := [
    "t-comment", "t-str", "t-subst", "t-num", "t-type", "t-kw", "t-lit", "t-builtin"]

  function OpenTag(class_: string): string {
    "<span class=\"" + class_ + "\"" + ['>']
  }

  const CLOSE_TAG: string := "</span" + ['>']

  function RenderPiece(piece: Piece): string {
    match piece.class_
    case None => Escape(piece.text)
    case Some(class_) => OpenTag(class_) + Escape(piece.text) + CLOSE_TAG
  }

  function Render(pieces: seq<Piece>): string {
    if pieces == [] then []
    else Render(pieces[..|pieces| - 1]) + RenderPiece(pieces[|pieces| - 1])
  }

  function Source(pieces: seq<Piece>): string {
    if pieces == [] then []
    else Source(pieces[..|pieces| - 1]) + pieces[|pieces| - 1].text
  }

  ghost predicate KnownClasses(pieces: seq<Piece>) {
    forall i :: 0 <= i < |pieces| && pieces[i].class_.Some? ==> pieces[i].class_.value in CLASSES
  }

  // The opening tag names the class in its attribute.
  lemma TagNamesClass(class_: string)
    ensures var tag, end := OpenTag(class_), 13 + |class_|;
      && |tag| == end + 2
      && tag[..13] == "<span class=\"" && tag[13..end] == class_ && tag[end..] == ['\"', '>']
  {
  }

  lemma TextOfOpenTag(class_: string, rest: string)
    requires class_ in CLASSES
    ensures Text(OpenTag(class_) + rest) == Text(rest)
  {
    hide Escape;
    var html, inner := OpenTag(class_) + rest, "span class=\"" + class_ + "\"";
    assert '>' !in class_;
    assert '>' !in inner;
    assert html[0] == '<';
    assert html == ['<'] + inner + ['>'] + rest;
    TagIsDropped(['<'] + inner, rest);
  }

  lemma TextOfCloseTag(rest: string)
    ensures Text(CLOSE_TAG + rest) == Text(rest)
  {
    TagIsDropped("</span", rest);
    assert CLOSE_TAG + rest == "</span" + ['>'] + rest;
    assert (CLOSE_TAG + rest)[0] == '<';
  }

  lemma TextOfPiece(piece: Piece, rest: string)
    requires piece.class_.Some? ==> piece.class_.value in CLASSES
    ensures Text(RenderPiece(piece) + rest) == piece.text + Text(rest)
  {
    hide Text, Escape, OpenTag;
    match piece.class_
    case None =>
      TextOfEscaped(piece.text, rest);
    case Some(class_) =>
      var escaped := Escape(piece.text);
      assert RenderPiece(piece) + rest == OpenTag(class_) + (escaped + (CLOSE_TAG + rest));
      TextOfOpenTag(class_, escaped + (CLOSE_TAG + rest));
      TextOfEscaped(piece.text, CLOSE_TAG + rest);
      TextOfCloseTag(rest);
  }

  // Reading rendered pieces back gives their source.
  lemma {:induction false} TextOfRendered(pieces: seq<Piece>, rest: string)
    requires KnownClasses(pieces)
    ensures Text(Render(pieces) + rest) == Source(pieces) + Text(rest)
    decreases |pieces|
  {
    hide Text, RenderPiece;
    if pieces == [] {
      assert Render(pieces) + rest == rest;
    } else {
      var front, last := pieces[..|pieces| - 1], pieces[|pieces| - 1];
      TextOfRendered(front, RenderPiece(last) + rest);
      TextOfPiece(last, rest);
      assert Render(pieces) + rest == Render(front) + (RenderPiece(last) + rest);
    }
  }

  lemma OneMorePiece(pieces: seq<Piece>, piece: Piece)
    ensures Render(pieces + [piece]) == Render(pieces) + RenderPiece(piece)
    ensures Source(pieces + [piece]) == Source(pieces) + piece.text
  {
    assert (pieces + [piece])[..|pieces|] == pieces;
  }

  // ---------- the highlighters ----------

  // A match of a token expression: its extent and the group it belongs to.
  datatype Match = Match(start: nat, end: nat, group: nat)

  // What running an expression from a position on finds next. Matches are not
  // empty, come at or after the position, and belong to one of the groups.
  type Expression = (string, nat) -> Option<Match>

  ghost predicate Finds(re: Expression, groups: nat) {
    forall s, position: nat {:trigger re(s, position)} :: position <= |s| && re(s, position).Some? ==>
      var m := re(s, position).value;
      position <= m.start < m.end <= |s| && 1 <= m.group <= groups
  }

  // The pieces of a text from a position on: every match in turn is painted by
  // its group, and what lies between matches gets the class of gaps.
  ghost function Painted(re: Expression, groups: nat, gap: Option<string>, paint: (nat, string) -> seq<Piece>,
                         src: string, last: nat): seq<Piece>
    requires Finds(re, groups) && last <= |src|
    decreases |src| - last
  {
    match re(src, last)
    case None => [Piece(gap, src[last..])]
    case Some(Match(start, end, group)) =>
      [Piece(gap, src[last..start])] + paint(group, src[start..end]) + Painted(re, groups, gap, paint, src, end)
  }

  // One more match painted in front of the rest.
  lemma PaintMatch(re: Expression, groups: nat, gap: Option<string>, paint: (nat, string) -> seq<Piece>,
                   src: string, last: nat, before: seq<Piece>)
    requires Finds(re, groups) && last <= |src| && re(src, last).Some?
    ensures var Match(start, end, group) := re(src, last).value;
      before + Painted(re, groups, gap, paint, src, last) ==
        (before + [Piece(gap, src[last..start])] + paint(group, src[start..end]))
        + Painted(re, groups, gap, paint, src, end)
  {
    var Match(start, end, group) := re(src, last).value;
    var a, b := [Piece(gap, src[last..start])], paint(group, src[start..end]);
    var c := Painted(re, groups, gap, paint, src, end);
    assert before + (a + b + c) == (before + a + b) + c;
  }

  // Each token as one piece of the class given for its group.
  function ByGroup(classes: seq<string>): (nat, string) -> seq<Piece> {
    (group: nat, token: string) =>
      if 1 <= group <= |classes| then [Piece(Some(classes[group - 1]), token)] else []
  }

  lemma PaintedByGroup(classes: seq<string>, group: nat, token: string)
    requires 1 <= group <= |classes|
    ensures ByGroup(classes)(group, token) == [Piece(Some(classes[group - 1]), token)]
  {
  }

  // A piece painted for some match of the text.
  ghost predicate PaintedMatch(re: Expression, classes: seq<string>, src: string, piece: Piece) {
    exists position: nat ::
      && position <= |src| && re(src, position).Some?
      && var m := re(src, position).value;
      && m.start <= m.end <= |src| && 1 <= m.group <= |classes|
      && piece == Piece(Some(classes[m.group - 1]), src[m.start..m.end])
  }

  // Gaps and matches alternate, from gap to gap, and every match has the class
  // of its group.
  lemma {:induction false} GapsAndMatchesAlternate(
      re: Expression, gap: Option<string>, classes: seq<string>, src: string, last: nat)
    requires Finds(re, |classes|) && last <= |src|
    ensures var pieces := Painted(re, |classes|, gap, ByGroup(classes), src, last);
      && |pieces| % 2 == 1
      && (forall i :: 0 <= i < |pieces| && i % 2 == 0 ==> pieces[i].class_ == gap)
      && (forall i :: 0 <= i < |pieces| && i % 2 == 1 ==> PaintedMatch(re, classes, src, pieces[i]))
    decreases |src| - last
  {
    if re(src, last).Some? {
      var Match(start, end, group) := re(src, last).value;
      GapsAndMatchesAlternate(re, gap, classes, src, end);
      var rest := Painted(re, |classes|, gap, ByGroup(classes), src, end);
      var first, second := Piece(gap, src[last..start]), Piece(Some(classes[group - 1]), src[start..end]);
      PaintedByGroup(classes, group, src[start..end]);
      assert PaintedMatch(re, classes, src, second);
      var pieces := Painted(re, |classes|, gap, ByGroup(classes), src, last);
      assert pieces == [first] + [second] + rest;
      hide Painted, PaintedMatch, ByGroup;
      assert forall i :: 2 <= i < |pieces| ==> pieces[i] == rest[i - 2];
    }
  }

  // Strings are strings with interpolations between them.
  lemma StringAlternates(re: Expression, str: string)
    requires Finds(re, 1)
    ensures var pieces := StringPieces(re, str);
      && |pieces| % 2 == 1
      && forall i :: 0 <= i < |pieces| ==> pieces[i].class_ == Some(if i % 2 == 0 then "t-str" else "t-subst")
  {
    GapsAndMatchesAlternate(re, Some("t-str"), ["t-subst"], str, 0);
  }

  ghost function StringPieces(re: Expression, str: string): seq<Piece>
    requires Finds(re, 1)
  {
    Painted(re, 1, Some("t-str"), ByGroup(["t-subst"]), str, 0)
  }

  // Inside a string, interpolations are coloured apart from the rest.
  method HighlightString(re: Expression, str: string) returns (out: string, ghost pieces: seq<Piece>)
    requires Finds(re, 1)
    ensures pieces == StringPieces(re, str)
    ensures out == Render(pieces) && Source(pieces) == str && KnownClasses(pieces)
    ensures Text(out) == str
  {
    hide Escape, Text, Render, Source, Painted;
    out, pieces := "", [];
    Nothing();
    var last := 0;
    ghost var gap, paint := Some("t-str"), ByGroup(["t-subst"]);
    assert pieces + Painted(re, 1, gap, paint, str, 0) == StringPieces(re, str);
    var m := re(str, 0);
    while m.Some?
      invariant last <= |str|
      invariant m == re(str, last)
      invariant pieces + Painted(re, 1, gap, paint, str, last) == StringPieces(re, str)
      invariant out == Render(pieces) && Source(pieces) == str[..last] && KnownClasses(pieces)
      decreases |str| - last
    {
      var Match(start, end, _) := m.value;
      var before, token := Piece(Some("t-str"), str[last..start]), Piece(Some("t-subst"), str[start..end]);
      PaintMatch(re, 1, gap, paint, str, last, pieces);
      OneMorePiece(pieces, before);
      OneMorePiece(pieces + [before], token);
      out := out + OpenTag("t-str") + Escape(str[last..start]) + CLOSE_TAG;
      out := out + OpenTag("t-subst") + Escape(str[start..end]) + CLOSE_TAG;
      assert str[..end] == str[..last] + str[last..start] + str[start..end];
      assert out == Render(pieces) + RenderPiece(before) + RenderPiece(token) by {
        Regroup(Render(pieces), before, token);
      }
      pieces := pieces + [before] + [token];
      last := end;
      m := re(str, last);
    }
    var tail := Piece(Some("t-str"), str[last..]);
    PaintRest(re, 1, gap, paint, str, last);
    OneMorePiece(pieces, tail);
    assert Render(pieces) + OpenTag("t-str") + Escape(str[last..]) + CLOSE_TAG == Render(pieces) + RenderPiece(tail);
    out := out + OpenTag("t-str") + Escape(str[last..]) + CLOSE_TAG;
    assert str == str[..last] + str[last..];
    pieces := pieces + [tail];
    ReadBack(pieces);
  }

  lemma KnownTwoMore(pieces: seq<Piece>, gap: Piece, token: Piece)
    requires KnownClasses(pieces) && gap.class_.None? && token.class_.Some? && token.class_.value in CLASSES
    ensures KnownClasses(pieces + [gap] + [token])
  {
  }

  lemma PaintRest(re: Expression, groups: nat, gap: Option<string>, paint: (nat, string) -> seq<Piece>,
                  src: string, last: nat)
    requires Finds(re, groups) && last <= |src| && re(src, last).None?
    ensures Painted(re, groups, gap, paint, src, last) == [Piece(gap, src[last..])]
  {
  }

  lemma Regroup(out: string, a: Piece, b: Piece)
    requires a.class_.Some? && b.class_.Some?
    ensures out + OpenTag(a.class_.value) + Escape(a.text) + CLOSE_TAG
      + OpenTag(b.class_.value) + Escape(b.text) + CLOSE_TAG == out + RenderPiece(a) + RenderPiece(b)
  {
    hide Escape, OpenTag;
    var x := OpenTag(a.class_.value) + Escape(a.text) + CLOSE_TAG;
    var y := OpenTag(b.class_.value) + Escape(b.text) + CLOSE_TAG;
    assert out + OpenTag(a.class_.value) + Escape(a.text) + CLOSE_TAG == out + x;
    assert (out + x) + OpenTag(b.class_.value) + Escape(b.text) + CLOSE_TAG == (out + x) + y;
  }

  lemma Nothing()
    ensures Render([]) == "" && Source([]) == ""
  {
  }

  lemma ReadBack(pieces: seq<Piece>)
    requires KnownClasses(pieces)
    ensures Text(Render(pieces)) == Source(pieces)
  {
    TextOfRendered(pieces, "");
    assert Render(pieces) + "" == Render(pieces);
    assert Source(pieces) + "" == Source(pieces);
  }

  lemma {:induction false} RenderConcat(a: seq<Piece>, b: seq<Piece>)
    ensures Render(a + b) == Render(a) + Render(b)
    ensures Source(a + b) == Source(a) + Source(b)
    decreases |b|
  {
    hide Render, Source, RenderPiece;
    if b == [] {
      assert a + b == a;
      Nothing();
    } else {
      var front, last := b[..|b| - 1], b[|b| - 1];
      RenderConcat(a, front);
      OneMorePiece(front, last);
      OneMorePiece(a + front, last);
      assert a + b == (a + front) + [last] && b == front + [last];
    }
  }

  datatype Vocabulary = Vocabulary(keywords: set<string>, literals: set<string>, builtins: set<string>)

  // The class of a word, if it has one.
  function WordClass(v: Vocabulary, word: string): (r: Option<string>)
    ensures r.Some? ==> r.value in CLASSES
  {
    if word in v.keywords then Some("t-kw")
    else if word in v.literals then Some("t-lit")
    else if word in v.builtins then Some("t-builtin")
    else if word != [] && 'A' <= word[0] <= 'Z' then Some("t-type")
    else None
  }

  // What a token of Witchy source is painted as: a comment, a string, a number, a
  // lifetime or a word.
  ghost function WitchyPieces(v: Vocabulary, interpolation: Expression, group: nat, token: string): seq<Piece>
    requires Finds(interpolation, 1)
  {
    if group == 2 then StringPieces(interpolation, token)
    else [Piece(TokenClass(v, group, token), token)]
  }

  function TokenClass(v: Vocabulary, group: nat, token: string): (r: Option<string>)
    ensures r.Some? ==> r.value in CLASSES
  {
    if group == 1 then Some("t-comment")
    else if group == 3 then Some("t-num")
    else if group == 4 then Some("t-type")
    else WordClass(v, token)
  }

  ghost function WitchyPaint(v: Vocabulary, interpolation: Expression): (nat, string) -> seq<Piece>
    requires Finds(interpolation, 1)
  {
    (group: nat, token: string) => WitchyPieces(v, interpolation, group, token)
  }

  // A keyword is painted as such before anything else, then a literal, then a
  // builtin; of the other words those with a capital are types and the rest
  // stay bare.
  lemma WordClassIff(v: Vocabulary, word: string)
    ensures WordClass(v, word) == Some("t-kw") <==> word in v.keywords
    ensures WordClass(v, word) == Some("t-lit") <==> word in v.literals - v.keywords
    ensures WordClass(v, word) == Some("t-builtin") <==> word in v.builtins - v.literals - v.keywords
    ensures WordClass(v, word) == Some("t-type") <==>
      && word !in v.keywords + v.literals + v.builtins
      && exists capital :: 'A' <= capital <= 'Z' && [capital] <= word
    ensures WordClass(v, word) in {Some("t-kw"), Some("t-lit"), Some("t-builtin"), Some("t-type"), None}
  {
    assert word != [] ==> [word[0]] <= word;
    assert "t-kw"[2] != "t-lit"[2] && "t-kw"[2] != "t-builtin"[2] && "t-kw"[2] != "t-type"[2];
    assert "t-lit"[2] != "t-builtin"[2] && "t-lit"[2] != "t-type"[2] && "t-builtin"[2] != "t-type"[2];
  }

  // One token of Witchy source. Its pieces are those of its group.
  method WitchyToken(v: Vocabulary, interpolation: Expression, group: nat, token: string)
    returns (out: string, ghost pieces: seq<Piece>)
    requires Finds(interpolation, 1)
    requires 1 <= group <= 5
    ensures pieces == WitchyPieces(v, interpolation, group, token)
    ensures group == 1 ==> pieces == [Piece(Some("t-comment"), token)]
    ensures group == 2 ==> pieces == StringPieces(interpolation, token)
    ensures group == 3 ==> pieces == [Piece(Some("t-num"), token)]
    ensures group == 4 ==> pieces == [Piece(Some("t-type"), token)]
    ensures group == 5 ==> pieces == [Piece(WordClass(v, token), token)]
    ensures out == Render(pieces) && Source(pieces) == token && KnownClasses(pieces)
    ensures Text(out) == token
  {
    hide Escape, Text, Finds, Render, Source, StringPieces, WordClass;
    if group == 2 {
      out, pieces := HighlightString(interpolation, token);
      return;
    }
    var class_ := TokenClass(v, group, token);
    out := RenderPiece(Piece(class_, token));
    pieces := [Piece(class_, token)];
    OnePiece(Piece(class_, token));
    ReadBack(pieces);
  }

  lemma OnePiece(piece: Piece)
    ensures Render([piece]) == RenderPiece(piece) && Source([piece]) == piece.text
  {
    OneMorePiece([], piece);
    assert [] + [piece] == [piece];
  }

  // The text of the highlighted source is the source.
  method HighlightWitchy(v: Vocabulary, tokens: Expression, interpolation: Expression, src: string)
    returns (out: string, ghost pieces: seq<Piece>)
    requires Finds(tokens, 5) && Finds(interpolation, 1)
    ensures pieces == Painted(tokens, 5, None, WitchyPaint(v, interpolation), src, 0)
    ensures out == Render(pieces) && Source(pieces) == src && KnownClasses(pieces)
    ensures Text(out) == src
  {
    hide Escape, Text, Render, Source, Painted, WitchyPieces;
    out, pieces := "", [];
    Nothing();
    var last := 0;
    ghost var paint := WitchyPaint(v, interpolation);
    ghost var all := Painted(tokens, 5, None, paint, src, 0);
    assert pieces + all == all;
    var m := tokens(src, 0);
    while m.Some?
      invariant last <= |src|
      invariant m == tokens(src, last)
      invariant pieces + Painted(tokens, 5, None, paint, src, last) == all
      invariant out == Render(pieces) && Source(pieces) == src[..last] && KnownClasses(pieces)
      decreases |src| - last
    {
      var Match(start, end, group) := m.value;
      PaintMatch(tokens, 5, None, paint, src, last, pieces);
      var gap := Piece(None, src[last..start]);
      var html;
      ghost var parts;
      html, parts := WitchyToken(v, interpolation, group, src[start..end]);
      OneMorePiece(pieces, gap);
      RenderConcat(pieces + [gap], parts);
      out := out + Escape(src[last..start]);
      out := out + html;
      assert src[..end] == src[..last] + src[last..start] + src[start..end];
      pieces := pieces + [gap] + parts;
      last := end;
      m := tokens(src, last);
    }
    PaintRest(tokens, 5, None, paint, src, last);
    OneMorePiece(pieces, Piece(None, src[last..]));
    out := out + Escape(src[last..]);
    assert src == src[..last] + src[last..];
    pieces := pieces + [Piece(None, src[last..])];
    ReadBack(pieces);
  }

  const SHELL_CLASSES: seq<string> := ["t-comment", "t-str", "t-subst", "t-kw"]
  const TOML_CLASSES: seq<string> := ["t-comment", "t-type", "t-builtin", "t-str", "t-lit", "t-num"]

  // The shell and TOML highlighters differ only in their expression and in the
  // class they give to each group.
  method HighlightByGroup(tokens: Expression, classes: seq<string>, src: string)
    returns (out: string, ghost pieces: seq<Piece>)
    requires Finds(tokens, |classes|)
    requires forall i :: 0 <= i < |classes| ==> classes[i] in CLASSES
    ensures pieces == Painted(tokens, |classes|, None, ByGroup(classes), src, 0)
    ensures out == Render(pieces) && Source(pieces) == src && KnownClasses(pieces)
    ensures Text(out) == src
  {
    hide Escape, Text, Render, Source, Painted, ByGroup;
    out, pieces := "", [];
    Nothing();
    var last := 0;
    ghost var paint := ByGroup(classes);
    ghost var all := Painted(tokens, |classes|, None, paint, src, 0);
    assert pieces + all == all;
    var m := tokens(src, 0);
    while m.Some?
      invariant last <= |src|
      invariant m == tokens(src, last)
      invariant pieces + Painted(tokens, |classes|, None, paint, src, last) == all
      invariant out == Render(pieces) && Source(pieces) == src[..last] && KnownClasses(pieces)
      decreases |src| - last
    {
      var Match(start, end, group) := m.value;
      PaintMatch(tokens, |classes|, None, paint, src, last, pieces);
      PaintedByGroup(classes, group, src[start..end]);
      var gap, token := Piece(None, src[last..start]), Piece(Some(classes[group - 1]), src[start..end]);
      OneMorePiece(pieces, gap);
      OneMorePiece(pieces + [gap], token);
      KnownTwoMore(pieces, gap, token);
      out := out + Escape(src[last..start]);
      out := out + RenderPiece(token);
      assert src[..end] == src[..last] + src[last..start] + src[start..end];
      pieces := pieces + [gap] + [token];
      last := end;
      m := tokens(src, last);
    }
    PaintRest(tokens, |classes|, None, paint, src, last);
    OneMorePiece(pieces, Piece(None, src[last..]));
    out := out + Escape(src[last..]);
    assert src == src[..last] + src[last..];
    pieces := pieces + [Piece(None, src[last..])];
    ReadBack(pieces);
  }

  method HighlightShell(tokens: Expression, src: string) returns (out: string, ghost pieces: seq<Piece>)
    requires Finds(tokens, 4)
    ensures pieces == Painted(tokens, 4, None, ByGroup(["t-comment", "t-str", "t-subst", "t-kw"]), src, 0)
    ensures out == Render(pieces) && Source(pieces) == src && KnownClasses(pieces)
    ensures Text(out) == src
  {
    hide Text, Render, Source, Painted, ByGroup;
    out, pieces := HighlightByGroup(tokens, SHELL_CLASSES, src);
  }

  method HighlightToml(tokens: Expression, src: string) returns (out: string, ghost pieces: seq<Piece>)
    requires Finds(tokens, 6)
    ensures pieces == Painted(
      tokens, 6, None, ByGroup(["t-comment", "t-type", "t-builtin", "t-str", "t-lit", "t-num"]), src, 0)
    ensures out == Render(pieces) && Source(pieces) == src && KnownClasses(pieces)
    ensures Text(out) == src
  {
    hide Text, Render, Source, Painted, ByGroup;
    out, pieces := HighlightByGroup(tokens, TOML_CLASSES, src);
  }
}
