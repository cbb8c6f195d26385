/** How the printer's steps add up to a line and a draft block. */
module Printing {
  import opened Encoding
  import opened Protocol

  lemma OnePiece(s: string, quote: bool)
    ensures EncodeWord([Piece(s, quote)]) == EncodePiece(Piece(s, quote))
    ensures EncodeWord(Plain(s)) == s
    ensures EncodeWord(Quoted(s)) != ""
  {
    assert [Piece(s, quote)][1..] == [];
    assert EncodePiece(Piece(s, quote)) + "" == EncodePiece(Piece(s, quote));
    assert Plain(s)[1..] == [] && Quoted(s)[1..] == [];
    assert s + "" == s;
  }

  lemma KeywordLine(keyword: string)
    ensures EncodeLine([Plain(keyword)]) == keyword
  {
    OnePiece(keyword, false);
    assert EncodeWords([Plain(keyword)]) == [keyword];
  }

  /** Appending a word to a line that has one. */
  lemma MoreWords(head: string, ws: seq<Word>, s: string, quote: bool)
    requires ws != []
    ensures head + EncodeLine(ws) + " " + EncodePiece(Piece(s, quote))
         == head + EncodeLine(ws + [[Piece(s, quote)]])
  {
    OnePiece(s, quote);
    EncodeLineSnoc(ws, [Piece(s, quote)]);
    HeadedWord(head, EncodeLine(ws), EncodePiece(Piece(s, quote)));
  }

  lemma HeadedWord(head: string, line: string, word: string)
    ensures head + line + " " + word == head + (line + " " + word)
  {
    var s := head + line + " " + word;
    assert s[..|head|] == head && s[|head|..] == line + " " + word;
  }

  lemma {:induction false} KeywordFirst(keyword: string, ws: seq<Word>)
    requires keyword != ""
    ensures EncodeLine([Plain(keyword)] + ws) != ""
    ensures EncodeLine([Plain(keyword)] + ws)[0] == keyword[0]
  {
    if ws == [] {
      assert [Plain(keyword)] + ws == [Plain(keyword)];
      KeywordLine(keyword);
    } else {
      var n := |ws| - 1;
      KeywordFirst(keyword, ws[..n]);
      assert [Plain(keyword)] + ws == ([Plain(keyword)] + ws[..n]) + [ws[n]];
      EncodeLineSnoc([Plain(keyword)] + ws[..n], ws[n]);
    }
  }

  lemma ReplyBodyNonempty(r: Response)
    ensures ReplyBody(r) != ""
  {
    var ws := ReplyWords(r);
    assert ws == [ws[0]] + ws[1..];
    var first: Word := ws[0];
    var keyword := first[0].text;
    assert ws[0] == Plain(keyword);
    KeywordFirst(keyword, ws[1..]);
  }

  predicate NoBlanks(bodies: seq<string>) {
    forall i | 0 <= i < |bodies| :: bodies[i] != ""
  }

  /** A draft is empty exactly when nothing has been printed. */
  lemma DraftEmpty(bodies: seq<string>)
    requires NoBlanks(bodies)
    ensures Draft(bodies) == "" <==> bodies == []
  {
  }

  /** Beginning a line after the bodies so far, and printing `b` there. */
  lemma DraftSnoc(bodies: seq<string>, b: string)
    requires NoBlanks(bodies)
    ensures Draft(bodies + [b]) ==
            Begun(Draft(bodies)) + b
  {
    JoinSnoc(" ;\n", bodies, b);
    DraftEmpty(bodies);
    assert "" + b == b;
  }

  lemma ReplyBodiesSnoc(rs: seq<Response>, r: Response)
    ensures ReplyBodies(rs + [r]) == ReplyBodies(rs) + [ReplyBody(r)]
  {
  }

  lemma OneWord(head: string, keyword: string)
    ensures head + keyword == head + EncodeLine([Plain(keyword)])
  {
    KeywordLine(keyword);
  }

  lemma TwoWords(head: string, keyword: string, s: string, quote: bool)
    ensures head + keyword + " " + EncodePiece(Piece(s, quote))
         == head + EncodeLine([Plain(keyword), [Piece(s, quote)]])
  {
    KeywordLine(keyword);
    MoreWords(head, [Plain(keyword)], s, quote);
    assert [Plain(keyword)] + [[Piece(s, quote)]] == [Plain(keyword), [Piece(s, quote)]];
  }

  lemma ThreeWords(head: string, keyword: string, s: string, quote: bool, t: string, quoteT: bool)
    ensures head + keyword + " " + EncodePiece(Piece(s, quote)) + " " + EncodePiece(Piece(t, quoteT))
         == head + EncodeLine([Plain(keyword), [Piece(s, quote)], [Piece(t, quoteT)]])
  {
    var ws := [Plain(keyword), [Piece(s, quote)]];
    TwoWords(head, keyword, s, quote);
    MoreWords(head, ws, t, quoteT);
    assert ws + [[Piece(t, quoteT)]] == [Plain(keyword), [Piece(s, quote)], [Piece(t, quoteT)]];
  }
}
