/** The printed form: pieces, words, lines and blocks. */
module Encoding {
  import opened Octets

  /** Characters that never need quoting. */
  predicate Safe(c: char) {
    || 'a' <= c <= 'z' || 'A' <= c <= 'Z' || '0' <= c <= '9'
    || c == '-' || c == '+' || c == '_' || c == '/' || c == '%' || c == '.'
  }

  predicate AllSafe(s: string) {
    forall i | 0 <= i < |s| :: Safe(s[i])
  }

  /** Characters that need escaping inside quotes. */
  predicate NeedsEscape(c: char) {
    c < ' ' || c == '\U{7F}' || c == '\\' || c == '\''
  }

  function EscapeChar(c: char): string {
    if !NeedsEscape(c) then [c]
    else if c == '\t' then "\\t"
    else if c == '\n' then "\\n"
    else if c == '\'' || c == '\\' then ['\\', c]
    else ['\\', HexDigit(c as int / 16), HexDigit(c as int % 16)]
  }

  function Escape(s: string): string {
    if s == "" then "" else EscapeChar(s[0]) + Escape(s[1..])
  }

  /** One call of Append: `quote` asks for quoting where the text needs it. */
  datatype Piece = Piece(text: string, quote: bool)

  function EncodePiece(p: Piece): string {
    if !p.quote || (p.text != "" && AllSafe(p.text)) then p.text
    else "'" + Escape(p.text) + "'"
  }

  /** A word is one AppendWord followed by any number of Appends. */
  type Word = seq<Piece>

  function Text(w: Word): string {
    if w == [] then "" else w[0].text + Text(w[1..])
  }

  function EncodeWord(w: Word): string {
    if w == [] then "" else EncodePiece(w[0]) + EncodeWord(w[1..])
  }

  function Join(sep: string, parts: seq<string>): string {
    if parts == [] then ""
    else if |parts| == 1 then parts[0]
    else parts[0] + sep + Join(sep, parts[1..])
  }

  function EncodeWords(ws: seq<Word>): (r: seq<string>)
    ensures |r| == |ws| && forall i | 0 <= i < |ws| :: r[i] == EncodeWord(ws[i])
  {
    seq(|ws|, i requires 0 <= i < |ws| => EncodeWord(ws[i]))
  }

  function Texts(ws: seq<Word>): (r: seq<string>)
    ensures |r| == |ws| && forall i | 0 <= i < |ws| :: r[i] == Text(ws[i])
  {
    seq(|ws|, i requires 0 <= i < |ws| => Text(ws[i]))
  }

  function EncodeLine(ws: seq<Word>): string {
    Join(" ", EncodeWords(ws))
  }

  /** A word appended in one piece with quoting on. */
  function Quoted(s: string): Word {
    [Piece(s, true)]
  }

  /** A word appended verbatim. */
  function Plain(s: string): Word {
    [Piece(s, false)]
  }

  /** The bytes of a block while it is being built, and once prepared for writing. */
  function Draft(bodies: seq<string>): string {
    Join(" ;\n", bodies)
  }

  function Block(bodies: seq<string>): string {
    Draft(bodies) + "\n"
  }

  /** A draft with its last line terminated, ready for the next. */
  function Begun(draft: string): string {
    if draft == "" then "" else draft + " ;\n"
  }

  /** The lines a reader finds in a block: every body but the last is marked as continued. */
  function Framed(bodies: seq<string>): (r: seq<string>)
    ensures |r| == |bodies|
  {
    seq(|bodies|, i requires 0 <= i < |bodies| =>
      if i == |bodies| - 1 then bodies[i] else bodies[i] + " ;")
  }

  // ---- Building from the right ----

  lemma {:induction false} JoinSnoc(sep: string, parts: seq<string>, p: string)
    ensures Join(sep, parts + [p]) == if parts == [] then p else Join(sep, parts) + sep + p
  {
    if parts == [] {
      assert parts + [p] == [p];
    } else {
      assert (parts + [p])[1..] == parts[1..] + [p];
      JoinSnoc(sep, parts[1..], p);
      if |parts| > 1 {
        assert Join(sep, parts + [p]) == parts[0] + sep + (Join(sep, parts[1..]) + sep + p);
      }
    }
  }

  lemma {:induction false} EscapeAppend(s: string, t: string)
    ensures Escape(s + t) == Escape(s) + Escape(t)
  {
    if s == "" {
      assert s + t == t;
    } else {
      assert (s + t)[1..] == s[1..] + t;
      EscapeAppend(s[1..], t);
    }
  }

  lemma {:induction false} EscapeClean(s: string)
    requires forall i | 0 <= i < |s| :: !NeedsEscape(s[i])
    ensures Escape(s) == s
  {
    if s != "" {
      EscapeClean(s[1..]);
      assert s == [s[0]] + s[1..];
    }
  }

  lemma EncodeLineSnoc(ws: seq<Word>, w: Word)
    ensures EncodeLine(ws + [w]) ==
            if ws == [] then EncodeWord(w) else EncodeLine(ws) + " " + EncodeWord(w)
  {
    assert EncodeWords(ws + [w]) == EncodeWords(ws) + [EncodeWord(w)];
    JoinSnoc(" ", EncodeWords(ws), EncodeWord(w));
  }
}
