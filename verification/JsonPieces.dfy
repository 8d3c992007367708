// Every string literal in a text is read as the bytes of its pieces.

module JsonPieces {
  import opened Bytes
  import opened JsonGrammar
  import opened JsonSyntax
  import opened JsonText

  import S = JsonStrings

  // ---- One piece ----

  lemma NulUnit(t: Text, p: nat)
    requires Here(t, p, PieceText(Nul))
    ensures p < |t| && t[p] != 0 && Unit(t, p) == Ok([0], p + 6) && LiteralEnd(t, p) == LiteralEnd(t, p + 6)
  {
    var s := PieceText(Nul);
    forall i | 0 <= i < 6 ensures At(t, p + i) == s[i] && p + i < |t| { HereAt(t, p, s, i); }
    assert FourHex(t, p + 2) && Hex4(t, p + 2) == 0;
    S.PastHex(t, p + 2, 4);
  }

  lemma UnescapePiece(x: Piece, t: Text, p: nat, end: nat)
    requires Here(t, p, PieceText(x)) && p + |PieceText(x)| <= end
    ensures Unescape(t, p, end) == S.Prepend(PieceBytes(x), Unescape(t, p + |PieceText(x)|, end))
  {
    hide Unescape, Unit, Here, S.Prepend, Utf8, S.Spelling, S.CodePoint, S.Legal;
    match x
    case One(c) => S.UnescapeChar(c, t, p, end);
    case Stray(b) => S.UnescapeRaw([b], t, p, end);
    case Nul =>
      NulUnit(t, p);
      S.UnescapeUnit(t, p, end, [0], p + 6);
  }

  lemma LiteralEndPiece(x: Piece, t: Text, p: nat)
    requires Here(t, p, PieceText(x))
    ensures p + |PieceText(x)| <= |t| && LiteralEnd(t, p) == LiteralEnd(t, p + |PieceText(x)|)
  {
    hide LiteralEnd, Here, S.Spelling, S.Legal;
    match x
    case One(c) => S.LiteralEndChar(c, t, p);
    case Stray(b) =>
      S.LiteralEndRaw([b], t, p);
      HereAt(t, p, [b], 0);
    case Nul => NulUnit(t, p);
  }

  // ---- All of them ----

  lemma {:induction false} UnescapePieces(ps: seq<Piece>, t: Text, p: nat, end: nat)
    requires Here(t, p, PiecesText(ps)) && end == p + |PiecesText(ps)|
    ensures Unescape(t, p, end) == Some(PiecesBytes(ps))
    decreases |ps|
  {
    hide Unescape, PieceText, PieceBytes, Here;
    if ps == [] {
      S.UnescapeEnd(t, p);
    } else {
      var s := PieceText(ps[0]);
      HereSplit(t, p, s, PiecesText(ps[1..]));
      UnescapePiece(ps[0], t, p, end);
      UnescapePieces(ps[1..], t, p + |s|, end);
    }
  }

  lemma {:induction false} LiteralEndPieces(ps: seq<Piece>, t: Text, p: nat)
    requires Here(t, p, PiecesText(ps) + [QUOTE])
    ensures LiteralEnd(t, p) == p + |PiecesText(ps)| + 1
    decreases |ps|
  {
    hide LiteralEnd, PieceText, Here;
    if ps == [] {
      assert [] + [QUOTE] == [QUOTE];
      S.LiteralEndQuote(t, p);
    } else {
      var s := PieceText(ps[0]);
      assert PiecesText(ps) + [QUOTE] == s + (PiecesText(ps[1..]) + [QUOTE]);
      HereSplit(t, p, s, PiecesText(ps[1..]) + [QUOTE]);
      LiteralEndPiece(ps[0], t, p);
      LiteralEndPieces(ps[1..], t, p + |s|);
    }
  }

  // A literal, whatever it opens with, is read as what its pieces spell.
  lemma QuotedRead(t: Text, p: nat, open: Byte, ps: seq<Piece>)
    requires |t| < SIZE_MAX_PLUS_1 && Here(t, p, Quoted(open, ps))
    ensures p < |t| && t[p] == open && QuotedString(t, p) == (Some(StringMeaning(ps)), p + |Quoted(open, ps)|)
  {
    hide Here, LiteralEnd, Unescape, PiecesText, PiecesBytes;
    var body := PiecesText(ps);
    HereAt(t, p, Quoted(open, ps), 0);
    HereSplit(t, p, [open], body + [QUOTE]);
    HereSplit(t, p + 1, body, [QUOTE]);
    LiteralEndPieces(ps, t, p + 1);
    UnescapePieces(ps, t, p + 1, p + 1 + |body|);
    assert |body| % SIZE_MAX_PLUS_1 == |body|;
  }
}
