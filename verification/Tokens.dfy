/** strspn, strpbrk and strtok on a buffer, with the saved position between calls. */
module Tokens {
  import opened Bytes
  import opened CStrings

  /** The number of leading bytes that are separators. */
  function Span(s: seq<Byte>, seps: seq<Byte>): (n: nat)
    ensures n <= |s| && (forall i :: 0 <= i < n ==> s[i] in seps) && (n < |s| ==> s[n] !in seps)
  {
    if s == [] || s[0] !in seps then 0 else 1 + Span(s[1..], seps)
  }

  /** The number of leading bytes that are not separators. */
  function Break(s: seq<Byte>, seps: seq<Byte>): (n: nat)
    ensures n <= |s| && (forall i :: 0 <= i < n ==> s[i] !in seps) && (n < |s| ==> s[n] in seps)
  {
    if s == [] || s[0] in seps then 0 else 1 + Break(s[1..], seps)
  }

  lemma SpanIs(s: seq<Byte>, seps: seq<Byte>, n: nat)
    requires n <= |s| && (forall i :: 0 <= i < n ==> s[i] in seps) && (n < |s| ==> s[n] !in seps)
    ensures Span(s, seps) == n
  {
  }

  lemma BreakIs(s: seq<Byte>, seps: seq<Byte>, n: nat)
    requires n <= |s| && (forall i :: 0 <= i < n ==> s[i] !in seps) && (n < |s| ==> s[n] in seps)
    ensures Break(s, seps) == n
  {
  }

  /** What strtok finds in a text: nothing, or a token and what follows the separator behind it. */
  datatype Found = Nothing | Token(start: nat, length: nat, more: bool)

  function NextToken(s: seq<Byte>, seps: seq<Byte>): (f: Found)
    ensures f.Token? ==> f.length > 0 && f.start + f.length + (if f.more then 1 else 0) <= |s| && (!f.more ==> f.start + f.length == |s|)
  {
    var a := Span(s, seps);
    if a == |s| then Nothing
    else
      var n := Break(s[a..], seps);
      Token(a, n, a + n < |s|)
  }

  /** There is a token unless every byte is a separator, and it is the first longest run of other bytes. */
  lemma NextTokenIs(s: seq<Byte>, seps: seq<Byte>)
    ensures NextToken(s, seps).Nothing? <==> forall i :: 0 <= i < |s| ==> s[i] in seps
    ensures match NextToken(s, seps)
            case Nothing => true
            case Token(start, length, more) =>
              && (forall i :: 0 <= i < start ==> s[i] in seps)
              && (forall i :: start <= i < start + length ==> s[i] !in seps)
              && (more ==> s[start + length] in seps)
  {
  }

  /** The inner loop of strspn and strpbrk. */
  method Among(c: Byte, chars: seq<Byte>) returns (found: bool)
    requires 0 in chars && c != 0
    ensures found <==> c in Text(chars)
  {
    ghost var t := Text(chars);
    var k := 0;
    while chars[k] != 0 && chars[k] != c
      invariant 0 <= k <= |t| && c !in t[..k]
      decreases |t| - k
    {
      assert t[..k + 1] == t[..k] + [t[k]];
      k := k + 1;
    }
    assert t[..|t|] == t;
    found := chars[k] != 0;
    assert found ==> t[k] == c;
  }

  method StrSpn(buf: array<Byte>, p: nat, chars: seq<Byte>) returns (n: nat)
    requires p < buf.Length && 0 in buf[p..] && 0 in chars
    ensures n == Span(Text(buf[p..]), Text(chars))
  {
    hide Text, Span;
    ghost var t, seps := Text(buf[p..]), Text(chars);
    n := 0;
    while buf[p + n] != 0
      invariant n <= |t| && forall i :: 0 <= i < n ==> t[i] in seps
      decreases |t| - n
    {
      assert buf[p + n] == buf[p..][n];
      var found := Among(buf[p + n], chars);
      if !found {
        break;
      }
      n := n + 1;
    }
    assert buf[p + n] == buf[p..][n];
    SpanIs(t, seps, n);
  }

  /** strpbrk: the position of the first separator, or -1. */
  method StrPBrk(buf: array<Byte>, p: nat, chars: seq<Byte>) returns (at: int)
    requires p < buf.Length && 0 in buf[p..] && 0 in chars
    ensures var t, n := Text(buf[p..]), Break(Text(buf[p..]), Text(chars));
            at == if n < |t| then p + n else -1
  {
    hide Text, Break;
    ghost var t, seps := Text(buf[p..]), Text(chars);
    var n := 0;
    while buf[p + n] != 0
      invariant 0 <= n <= |t| && forall i :: 0 <= i < n ==> t[i] !in seps
      decreases |t| - n
    {
      assert buf[p + n] == buf[p..][n];
      var found := Among(buf[p + n], chars);
      if found {
        BreakIs(t, seps, n);
        return p + n;
      }
      n := n + 1;
    }
    assert buf[p + n] == buf[p..][n];
    BreakIs(t, seps, n);
    at := -1;
  }

  /** The two scans of strtok: where the token starts, or -1, and where its separator is, or -1. */
  method FindToken(buf: array<Byte>, s: nat, chars: seq<Byte>) returns (s1: int, s2: int)
    requires s < buf.Length && 0 in buf[s..] && 0 in chars
    ensures match NextToken(Text(buf[s..]), Text(chars))
            case Nothing => s1 == -1
            case Token(start, length, more) =>
              s1 == s + start && s2 == (if more then s1 + length else -1) && s1 + length < buf.Length
  {
    hide Span, Break, Text;
    ghost var t := Text(buf[s..]);
    var skip := StrSpn(buf, s, chars);
    s1, s2 := s + skip, -1;
    assert buf[s1] == buf[s..][skip];
    if buf[s1] == 0 {
      return -1, -1;
    }
    TextTail(buf[s..], skip);
    assert buf[s..][skip..] == buf[s1..];
    assert buf[s1..][|t| - skip] == buf[s..][|t|] == 0;
    s2 := StrPBrk(buf, s1, chars);
  }

  class Tokenizer {
    /** savestring: a position in the buffer, or -1 for NULL. */
    var saved: int

    constructor ()
      ensures saved == -1
    {
      saved := -1;
    }

    /** strtok; string == -1 stands for NULL and continues at the saved position. */
    method StrTok(buf: array<Byte>, start0: int, chars: seq<Byte>) returns (tok: int)
      requires 0 in chars
      requires var from := if start0 == -1 then saved else start0;
               from == -1 || (0 <= from < buf.Length && 0 in buf[from..])
      modifies this, buf
      ensures var from := if start0 == -1 then old(saved) else start0;
              if from == -1 then tok == -1 && saved == -1 && buf[..] == old(buf[..])
              else match NextToken(old(Text(buf[from..])), Text(chars))
                case Nothing => tok == -1 && saved == -1 && buf[..] == old(buf[..])
                case Token(start, length, more) =>
                  && tok == from + start && saved == (if more then tok + length + 1 else -1)
                  && tok + length < buf.Length
                  && buf[..] == if more then old(buf[..])[tok + length := 0] else old(buf[..])
    {
      var s := start0;
      if s == -1 {
        s := saved;
        if s == -1 {
          return -1;
        }
      }
      hide Text, NextToken;
      var s1, s2 := FindToken(buf, s, chars);
      if s1 == -1 {
        saved := -1;
        return -1;
      }
      if s2 != -1 {
        buf[s2] := 0;
        s2 := s2 + 1;
      }
      saved := s2;
      return s1;
    }
  }

  lemma {:induction false} TextTail(b: seq<Byte>, k: nat)
    requires k <= |Text(b)|
    ensures Text(b[k..]) == Text(b)[k..]
  {
    if k > 0 {
      TextTail(b[1..], k - 1);
      assert b[k..] == b[1..][k - 1..];
      assert Text(b)[k..] == Text(b)[1..][k - 1..];
    } else {
      assert b[0..] == b;
    }
  }

  /** A zero put into a text ends it there, and what follows is a text again. */
  lemma CutText(b: seq<Byte>, start: nat, end: nat)
    requires start <= end < |Text(b)| && 0 in b
    ensures Text(b[end := 0][start..]) == Text(b)[start..end]
    ensures Text(b[end := 0][end + 1..]) == Text(b)[end + 1..] && 0 in b[end := 0][end + 1..]
  {
    hide Text;
    var t, c := Text(b), b[end := 0];
    TextTail(b, end + 1);
    assert c[end + 1..] == b[end + 1..];
    assert b[end + 1..][|t| - (end + 1)] == b[|t|] == 0;
    var w := t[start..end];
    assert c[start..] == w + [0] + c[end + 1..];
    TextOf(w, c[end + 1..]);
  }

  /** The token read from the changed buffer, and the text left at the saved position. */
  lemma TokenText(before: seq<Byte>, after: seq<Byte>, from: nat, f: Found)
    requires from <= |before| && f.Token? && 0 in before[from..]
    requires f.start + f.length + (if f.more then 1 else 0) <= |Text(before[from..])|
    requires !f.more ==> f.start + f.length == |Text(before[from..])|
    requires after == if f.more then before[from + f.start + f.length := 0] else before
    ensures var t := Text(before[from..]);
            && from + f.start + f.length < |after|
            && Text(after[from + f.start..]) == t[f.start..f.start + f.length]
            && (f.more ==>
                  Text(after[from + f.start + f.length + 1..]) == t[f.start + f.length + 1..] &&
                  0 in after[from + f.start + f.length + 1..])
  {
    hide Text;
    var b, e := before[from..], f.start + f.length;
    if f.more {
      CutText(b, f.start, e);
      assert b[e := 0][f.start..] == after[from + f.start..];
      assert b[e := 0][e + 1..] == after[from + e + 1..];
    } else {
      TextTail(b, f.start);
      assert b[f.start..] == after[from + f.start..];
    }
  }

  /** The next token of a text and what is left behind its separator; [] and [] when there is none. */
  function Piece(s: seq<Byte>, seps: seq<Byte>): (r: (seq<Byte>, seq<Byte>))
    ensures r.0 != [] <==> NextToken(s, seps).Token?
    ensures r.0 != [] ==> |r.0| + |r.1| <= |s| && (|r.1| < |s|)
    ensures r.0 == [] ==> r.1 == []
  {
    match NextToken(s, seps)
    case Nothing => ([], [])
    case Token(start, length, more) =>
      (s[start..start + length], if more then s[start + length + 1..] else [])
  }

  lemma PieceFree(s: seq<Byte>, seps: seq<Byte>)
    ensures forall c :: c in Piece(s, seps).0 ==> c !in seps
  {
    NextTokenIs(s, seps);
    hide NextToken;
  }

  /** A text without separators up to a separator is a piece, and so is one up to the end. */
  lemma PieceOf(w: seq<Byte>, rest: seq<Byte>, seps: seq<Byte>)
    requires w != [] && (forall c :: c in w ==> c !in seps) && (rest == [] || rest[0] in seps)
    ensures Piece(w + rest, seps) == (w, if rest == [] then [] else rest[1..])
  {
    var s := w + rest;
    assert s[0] == w[0] && s[0] in w;
    SpanIs(s, seps, 0);
    assert s[0..] == s;
    forall i | 0 <= i < |w| ensures s[i] !in seps {
      assert s[i] == w[i] && w[i] in w;
    }
    BreakIs(s, seps, |w|);
    hide Span, Break;
    assert s[0..|w|] == w;
    assert rest != [] ==> s[|w| + 1..] == rest[1..];
  }

  /** The text strtok will go on with: nothing after NULL was saved. */
  ghost function Left(buf: seq<Byte>, saved: int): seq<Byte>
    requires saved == -1 || 0 <= saved <= |buf|
  {
    if saved == -1 then [] else Text(buf[saved..])
  }

  ghost predicate CanContinue(buf: seq<Byte>, saved: int) {
    saved == -1 || (0 <= saved < |buf| && 0 in buf[saved..])
  }

  /** strtok as a step on texts: the token is the next piece, and the rest is left for the next call. */
  method NextPiece(t: Tokenizer, buf: array<Byte>, start0: int, chars: seq<Byte>) returns (tok: int)
    requires 0 in chars && CanContinue(buf[..], if start0 == -1 then t.saved else start0)
    modifies t, buf
    ensures var piece := Piece(old(Left(buf[..], if start0 == -1 then t.saved else start0)), Text(chars));
            && CanContinue(buf[..], t.saved) && Left(buf[..], t.saved) == piece.1
            && (tok == -1 <==> piece.0 == [])
            && (tok != -1 ==> 0 <= tok < buf.Length && 0 in buf[tok..] && Text(buf[tok..]) == piece.0)
  {
    hide Text, NextToken, Piece;
    ghost var from := if start0 == -1 then t.saved else start0;
    ghost var before := buf[..];
    assert from != -1 ==> buf[from..] == before[from..];
    tok := t.StrTok(buf, start0, chars);
    if from == -1 {
      NoPiece(Text(chars));
    } else {
      PieceStep(before, buf[..], from, tok, t.saved, Text(chars));
      assert tok != -1 ==> buf[tok..] == buf[..][tok..];
    }
  }

  /** What strtok did to the buffer, as a step on texts. */
  lemma PieceStep(before: seq<Byte>, after: seq<Byte>, from: nat, tok: int, saved: int, seps: seq<Byte>)
    requires from < |before| && 0 in before[from..]
    requires match NextToken(Text(before[from..]), seps)
             case Nothing => tok == -1 && saved == -1 && after == before
             case Token(start, length, more) =>
               && tok == from + start && saved == (if more then tok + length + 1 else -1) && tok + length < |before|
               && after == if more then before[tok + length := 0] else before
    ensures var piece := Piece(Text(before[from..]), seps);
            && CanContinue(after, saved) && Left(after, saved) == piece.1
            && (tok == -1 <==> piece.0 == [])
            && (tok != -1 ==> 0 <= tok < |after| && 0 in after[tok..] && Text(after[tok..]) == piece.0)
  {
    hide *;
    var f := NextToken(Text(before[from..]), seps);
    PieceIs(Text(before[from..]), seps);
    if f.Token? {
      TokenLeft(before, after, from, f, saved);
    } else {
      NothingLeft(after);
    }
  }

  lemma NothingLeft(buf: seq<Byte>)
    ensures CanContinue(buf, -1) && Left(buf, -1) == []
  {
  }

  lemma TokenLeft(before: seq<Byte>, after: seq<Byte>, from: nat, f: Found, saved: int)
    requires from <= |before| && f.Token? && 0 in before[from..]
    requires f.start + f.length + (if f.more then 1 else 0) <= |Text(before[from..])|
    requires !f.more ==> f.start + f.length == |Text(before[from..])|
    requires after == if f.more then before[from + f.start + f.length := 0] else before
    requires saved == if f.more then from + f.start + f.length + 1 else -1
    ensures var t, tok := Text(before[from..]), from + f.start;
            && CanContinue(after, saved)
            && Left(after, saved) == (if f.more then t[f.start + f.length + 1..] else [])
            && tok < |after| && 0 in after[tok..] && Text(after[tok..]) == t[f.start..f.start + f.length]
  {
    hide *;
    TokenText(before, after, from, f);
    var t := Text(before[from..]);
    TokenLength(t, f.start, f.length, Text(after[from + f.start..]));
    ZeroBehind(after, from + f.start, f.length);
    LeftIs(after, saved);
  }

  lemma TokenLength(t: seq<Byte>, start: nat, length: nat, token: seq<Byte>)
    requires start + length <= |t| && token == t[start..start + length]
    ensures |token| == length
  {
  }

  lemma LeftIs(buf: seq<Byte>, saved: int)
    ensures saved == -1 ==> CanContinue(buf, saved) && Left(buf, saved) == []
    ensures 0 <= saved <= |buf| && 0 in buf[saved..] ==> CanContinue(buf, saved) && Left(buf, saved) == Text(buf[saved..])
  {
    hide Text;
  }

  lemma PieceIs(s: seq<Byte>, seps: seq<Byte>)
    ensures match NextToken(s, seps)
            case Nothing => Piece(s, seps) == ([], [])
            case Token(start, length, more) =>
              Piece(s, seps) == (s[start..start + length], if more then s[start + length + 1..] else [])
  {
    hide NextToken;
  }

  lemma NoPiece(seps: seq<Byte>)
    ensures Piece([], seps) == ([], [])
  {
  }

  lemma ZeroBehind(buf: seq<Byte>, p: nat, n: nat)
    requires p + n < |buf| && |Text(buf[p..])| == n
    ensures 0 in buf[p..]
  {
    assert buf[p..][n] == 0;
  }
}
