/** The group table, the record printer and the record parser. */
module Groups {
  import opened Bytes
  import opened CStrings
  import opened Numerals
  import opened Atoi
  import opened Printf
  import opened Tokens

  const NO_GROUP := -1

  /** A row: its gid or NO_GROUP, and two zero-terminated buffers of 32 and 16 bytes. */
  datatype Group = Group(gid: int, groupName: seq<Byte>, password: seq<Byte>)

  predicate RowOk(g: Group, i: int) {
    (g.gid == -1 || g.gid == i) && |g.groupName| == 32 && |g.password| == 16 && 0 in g.groupName && 0 in g.password
  }

  predicate IsSet(rows: seq<Group>, i: int) {
    0 <= i < |rows| && rows[i].gid != -1
  }

  /** The first set row with the name, or NO_GROUP. */
  ghost predicate NameFree(rows: seq<Group>, name: seq<Byte>) {
    forall i :: 0 <= i < |rows| && IsSet(rows, i) ==> Text(rows[i].groupName) != name
  }

  /** "%d:%s:%s" */
  const TEMPLATE: seq<Byte> := [37, 100, 58, 37, 115, 58, 37, 115]

  /** The record of a group as text. */
  function Record(gid: int, name: seq<Byte>, password: seq<Byte>): seq<Byte> {
    Decimal(gid) + [58] + name + [58] + password
  }

  lemma RecordFormatted(gid: Int32, name: seq<Byte>, password: seq<Byte>)
    requires 0 in name && 0 in password
    ensures var args := [Dec(gid), Str(name), Str(password)];
            Matches(TEMPLATE, args) && Formatted(TEMPLATE, args) == Record(gid, Text(name), Text(password))
  {
    var none: seq<Arg> := [];
    assert Matches([], none) && Formatted([], none) == [];
    hide *;
    FormattedArg(115, [], Str(password), none);
    FormattedPlain(58, [37, 115] + [], [Str(password)] + none);
    FormattedArg(115, [58] + ([37, 115] + []), Str(name), [Str(password)] + none);
    FormattedPlain(58, [37, 115] + ([58] + ([37, 115] + [])), [Str(name)] + ([Str(password)] + none));
    FormattedArg(100, [58] + ([37, 115] + ([58] + ([37, 115] + []))), Dec(gid), [Str(name)] + ([Str(password)] + none));
    assert [37, 100] + ([58] + ([37, 115] + ([58] + ([37, 115] + [])))) == TEMPLATE;
    assert [Dec(gid)] + ([Str(name)] + ([Str(password)] + none)) == [Dec(gid), Str(name), Str(password)];
    RecordIs(gid, name, password);
  }

  lemma RecordIs(gid: Int32, name: seq<Byte>, password: seq<Byte>)
    ensures Record(gid, Text(name), Text(password))
         == Shown(Dec(gid)) + ([58] + (Shown(Str(name)) + ([58] + (Shown(Str(password)) + []))))
  {
    hide Decimal, Text;
  }

  /** What group_parse reads: the three tokens of a line. */
  datatype Fields = Fields(gid: seq<Byte>, name: seq<Byte>, password: seq<Byte>)

  function Parsed(line: seq<Byte>): Fields {
    var first := Piece(line, [58]);
    var second := Piece(first.1, [58, 10]);
    var third := Piece(second.1, [58, 10]);
    Fields(first.0, second.0, third.0)
  }

  predicate Plain(s: seq<Byte>) {
    s != [] && 0 !in s && 58 !in s && 10 !in s
  }

  /** The tokens of a printed record are its fields. */
  lemma ParsedRecord(gid: nat, name: seq<Byte>, password: seq<Byte>)
    requires Plain(name) && Plain(password)
    ensures Parsed(Record(gid, name, password)) == Fields(Numeral(gid, 10), name, password)
  {
    var digits, tail := Numeral(gid, 10), name + [58] + password;
    NoSeparator(gid);
    RecordParts(gid, name, password);
    assert Free(name, [58, 10]) && Free(password, [58, 10]) && name != [] && password != [];
    hide *;
    InnerField(digits, tail, [58]);
    InnerField(name, password, [58, 10]);
    LastField(password, [58, 10]);
    assert Record(gid, name, password) == digits + [58] + tail;
    FieldsOf(Record(gid, name, password), digits, tail, name, password);
  }

  predicate Free(s: seq<Byte>, seps: seq<Byte>) {
    forall c :: c in s ==> c !in seps
  }

  lemma RecordParts(gid: nat, name: seq<Byte>, password: seq<Byte>)
    ensures Record(gid, name, password) == Numeral(gid, 10) + [58] + (name + [58] + password)
  {
    hide Numeral;
  }

  lemma InnerField(w: seq<Byte>, rest: seq<Byte>, seps: seq<Byte>)
    requires w != [] && Free(w, seps) && 58 in seps
    ensures Piece(w + [58] + rest, seps) == (w, rest)
  {
    hide Piece;
    PieceOf(w, [58] + rest, seps);
    assert w + [58] + rest == w + ([58] + rest) && ([58] + rest)[1..] == rest;
  }

  lemma LastField(w: seq<Byte>, seps: seq<Byte>)
    requires w != [] && Free(w, seps)
    ensures Piece(w, seps) == (w, [])
  {
    hide Piece;
    PieceOf(w, [], seps);
    assert w + [] == w;
  }

  lemma FieldsOf(line: seq<Byte>, gid: seq<Byte>, tail: seq<Byte>, name: seq<Byte>, password: seq<Byte>)
    requires Piece(line, [58]) == (gid, tail) && Piece(tail, [58, 10]) == (name, password)
    requires Piece(password, [58, 10]) == (password, [])
    ensures Parsed(line) == Fields(gid, name, password)
  {
    hide Piece;
  }

  lemma NoSeparator(n: nat)
    ensures Numeral(n, 10) != [] && Free(Numeral(n, 10), [58])
  {
    NumeralDenotes(n, 10);
  }

  /** A buffer after strcpy of a text into it. */
  function Copied(buf: seq<Byte>, s: seq<Byte>): (r: seq<Byte>)
    requires |s| < |buf|
    ensures |r| == |buf| && 0 in r
  {
    assert Splice(buf, 0, s + [0])[|s|] == 0;
    Splice(buf, 0, s + [0])
  }

  lemma CopiedText(buf: seq<Byte>, s: seq<Byte>)
    requires |s| < |buf| && 0 !in s
    ensures Text(Copied(buf, s)) == s
  {
    assert Copied(buf, s) == s + [0] + buf[|s| + 1..];
    TextOf(s, buf[|s| + 1..]);
  }

  /** strcpy. */
  method StrCpy(to0: seq<Byte>, from: seq<Byte>) returns (to: seq<Byte>)
    requires 0 in from && |Text(from)| < |to0|
    ensures to == Copied(to0, Text(from))
  {
    ghost var s := Text(from);
    to := to0;
    var k := 0;
    while from[k] != 0
      invariant 0 <= k <= |s| && |to| == |to0|
      invariant forall i :: 0 <= i < |to0| ==> to[i] == if i < k then s[i] else to0[i]
      decreases |s| - k
    {
      to := to[k := from[k]];
      k := k + 1;
    }
    to := to[k := 0];
  }

  /** The rows while group_parse has read so many fields behind the gid, all accepted. */
  ghost predicate Progress(rows: seq<Group>, before: seq<Group>, gid: int, f: Fields, field: nat)
    requires |rows| == |before| == 15
  {
    && 0 <= gid < 15
    && rows == before[gid := rows[gid]] && rows[gid].gid == gid
    && Text(rows[gid].groupName) == (if field == 0 then [] else f.name)
    && (field >= 2 ==> Text(rows[gid].password) == f.password)
  }

  /** Where group_parse is when it has read so many fields behind the gid; p is -1 when the last was missing. */
  ghost predicate Midway(rows: seq<Group>, before: seq<Group>, gid: int, f: Fields, left: seq<Byte>, p: int, ok: bool, field: nat) {
    && |rows| == |before| == 15
    && (ok || field > 0 ==> 0 <= gid < 15 && !IsSet(before, gid))
    && (ok ==> Progress(rows, before, gid, f, field))
    && (field == 0 ==> p != -1 && f.name == Piece(left, [58, 10]).0
                       && f.password == Piece(Piece(left, [58, 10]).1, [58, 10]).0)
    && (field == 0 && !ok ==> rows == before && !(0 <= gid < 15 && !IsSet(before, gid)))
    && (field == 1 ==> (p != -1 <==> f.name != []) && f.password == Piece(left, [58, 10]).0)
    && (field == 1 && !ok ==> Progress(rows, before, gid, f, 0) && !(f.name != [] && NameFree(before, f.name)))
    && (field >= 1 && ok ==> f.name != [] && NameFree(before, f.name))
    && (field >= 2 ==> ok)
  }

  lemma StartMidway(rows: seq<Group>, before: seq<Group>, gid: int, f: Fields, left: seq<Byte>, p: int, ok: bool)
    requires |rows| == |before| == 15 && p != -1
    requires f.name == Piece(left, [58, 10]).0 && f.password == Piece(Piece(left, [58, 10]).1, [58, 10]).0
    requires ok <==> 0 <= gid < 15 && !IsSet(before, gid)
    requires ok ==> rows[gid].gid == gid && Text(rows[gid].groupName) == [] && rows == before[gid := rows[gid]]
    requires !ok ==> rows == before
    ensures Midway(rows, before, gid, f, left, p, ok, 0)
  {
  }

  lemma NameBegins(rows: seq<Group>, before: seq<Group>, gid: int, f: Fields, left: seq<Byte>, p: int)
    requires Midway(rows, before, gid, f, left, p, true, 0)
    ensures f.name == Piece(left, [58, 10]).0 && 58 !in f.name && IsSet(rows, gid)
    ensures f.name != [] ==> (NameFree(rows, f.name) <==> NameFree(before, f.name))
  {
    hide Text, Piece, NameFree;
    AddedName(before, rows, gid, true, f.name);
    PieceFree(left, [58, 10]);
    assert 58 in [58, 10];
  }

  lemma NameEnds(rows: seq<Group>, after: seq<Group>, before: seq<Group>, gid: int, f: Fields, left: seq<Byte>,
                 p0: int, p: int, ok: bool)
    requires Midway(rows, before, gid, f, left, p0, true, 0) && |after| == 15
    requires (p != -1 <==> f.name != []) && (ok <==> f.name != [] && NameFree(before, f.name))
    requires ok ==> Text(after[gid].groupName) == f.name
    requires ok ==> after == rows[gid := rows[gid].(groupName := after[gid].groupName)]
    requires !ok ==> after == rows
    ensures Midway(after, before, gid, f, Piece(left, [58, 10]).1, p, ok, 1)
  {
    hide Text, Piece, NameFree;
  }

  lemma NameRead(rows: seq<Group>, before: seq<Group>, gid: int, f: Fields, left: seq<Byte>, p: int)
    requires Midway(rows, before, gid, f, left, p, true, 1)
    ensures f.name != [] && f.password == Piece(left, [58, 10]).0 && 58 !in f.password && IsSet(rows, gid)
  {
    hide Text, Piece, NameFree;
    PieceFree(left, [58, 10]);
    assert 58 in [58, 10];
  }

  lemma PasswordEnds(rows: seq<Group>, after: seq<Group>, before: seq<Group>, gid: int, f: Fields, left: seq<Byte>,
                     left': seq<Byte>, p0: int, p: int)
    requires Midway(rows, before, gid, f, left, p0, true, 1) && |after| == 15
    requires Text(after[gid].password) == f.password
    requires after == rows[gid := rows[gid].(password := after[gid].password)]
    ensures Midway(after, before, gid, f, left', p, true, 2)
  {
    hide Text, Piece, NameFree;
  }

  lemma LaterField(rows: seq<Group>, before: seq<Group>, gid: int, f: Fields, left: seq<Byte>, p: int,
                   left': seq<Byte>, p': int, field: nat)
    requires Midway(rows, before, gid, f, left, p, true, field) && field >= 2
    ensures Midway(rows, before, gid, f, left', p', true, field + 1)
  {
  }

  /** What the loop leaves behind, also after the invalid row is unset again. */
  lemma MidwayResult(rows: seq<Group>, before: seq<Group>, gid: int, f: Fields, left: seq<Byte>, p: int, ok: bool, field: nat)
    requires Midway(rows, before, gid, f, left, p, ok, field) && (p == -1 || !ok) && gid == Wrap(Reading(f.gid))
    ensures |rows| == 15
    ensures ok || field == 0 ==> ParseResult(before, rows, f, ok)
    ensures !ok && field != 0 ==> 0 <= gid < 15 && ParseResult(before, rows[gid := rows[gid].(gid := -1)], f, false)
  {
    hide Text, Piece, NameFree, Reading, Wrap;
  }

  /** Unsetting a row that is not set changes nothing. */
  lemma StillUnset(rows: seq<Group>, gid: int)
    requires 0 <= gid < |rows|
    ensures !IsSet(rows, gid) ==> rows[gid := rows[gid].(gid := -1)] == rows
  {
  }

  class GroupTable {
    const groups: array<Group>

    ghost predicate Valid()
      reads groups
    {
      groups.Length == 15 && forall i :: 0 <= i < 15 ==> RowOk(groups[i], i)
    }

    /** group_reset of the zero-initialised table. */
    constructor ()
      ensures Valid() && fresh(groups) && forall i :: 0 <= i < 15 ==> !IsSet(groups[..], i)
    {
      groups := new Group[15](_ => Group(0, seq(32, _ => 0), seq(16, _ => 0)));
      new;
      for i := 0 to 15
        invariant forall j :: 0 <= j < 15 ==> groups[j] == Group(if j < i then -1 else 0, seq(32, _ => 0), seq(16, _ => 0))
      {
        groups[i] := groups[i].(gid := NO_GROUP);
      }
      forall j | 0 <= j < 15 ensures RowOk(groups[j], j) {
        assert groups[j].groupName[0] == 0 && groups[j].password[0] == 0;
      }
    }

    /** group_add. */
    method Add(gid: int) returns (ok: bool)
      requires Valid()
      modifies groups
      ensures Valid() && (ok <==> 0 <= gid < 15 && !IsSet(old(groups[..]), gid))
      ensures ok ==> groups[gid].gid == gid && Text(groups[gid].groupName) == [] && Text(groups[gid].password) == []
      ensures ok ==> groups[..] == old(groups[..])[gid := groups[gid]]
      ensures !ok ==> groups[..] == old(groups[..])
    {
      ok := false;
      if 0 <= gid < 15 {
        if groups[gid].gid == NO_GROUP {
          var row := groups[gid];
          groups[gid] := Group(gid, row.groupName[0 := 0], row.password[0 := 0]);
          assert groups[gid].groupName[0] == 0 && groups[gid].password[0] == 0;
          ok := true;
        }
      }
    }

    /** group_del, with the test of group_get. */
    method Delete(gid: int) returns (ok: bool)
      requires Valid()
      modifies groups
      ensures Valid() && (ok <==> IsSet(old(groups[..]), gid))
      ensures ok ==> groups[..] == old(groups[..])[gid := old(groups[gid]).(gid := -1)]
      ensures !ok ==> groups[..] == old(groups[..])
    {
      ok := 0 <= gid < 15 && groups[gid].gid != NO_GROUP;
      if ok {
        groups[gid] := groups[gid].(gid := NO_GROUP);
      }
    }

    /** group_find, with unset rows passed over. */
    method Find(name: seq<Byte>) returns (gid: int)
      requires Valid() && 0 in name
      ensures gid == -1 <==> NameFree(groups[..], Text(name))
      ensures gid != -1 ==> IsSet(groups[..], gid) && Text(groups[gid].groupName) == Text(name)
      ensures forall j :: 0 <= j < gid && IsSet(groups[..], j) ==> Text(groups[j].groupName) != Text(name)
    {
      for i := 0 to 15
        invariant forall j :: 0 <= j < i && IsSet(groups[..], j) ==> Text(groups[j].groupName) != Text(name)
      {
        assert RowOk(groups[i], i);
        if groups[i].gid != NO_GROUP {
          var difference := StrCmp(groups[i].groupName, name);
          if difference == 0 {
            return i;
          }
        }
      }
      gid := NO_GROUP;
    }

    /** group_isValidFormat. */
    static method IsValidFormat(token: seq<Byte>) returns (ok: bool)
      requires 0 in token
      ensures ok <==> 58 !in Text(token)
    {
      ghost var s := Text(token);
      var i := 0;
      while token[i] != 0
        invariant 0 <= i <= |s| && 58 !in s[..i]
        decreases |s| - i
      {
        if token[i] == 58 {
          assert s[i] == 58;
          return false;
        }
        assert s[..i + 1] == s[..i] + [s[i]];
        i := i + 1;
      }
      assert s[..i] == s;
      ok := true;
    }

    /** group_setGroupname; given is false for NULL. */
    method SetGroupname(gid: int, given: bool, name: seq<Byte>) returns (ok: bool)
      requires Valid() && (given ==> 0 in name && |Text(name)| < 32)
      modifies groups
      ensures Valid()
      ensures ok <==> IsSet(old(groups[..]), gid) && given && Text(name) != [] && 58 !in Text(name)
                      && NameFree(old(groups[..]), Text(name))
      ensures ok ==> Text(groups[gid].groupName) == Text(name)
      ensures ok ==> groups[..] == old(groups[..])[gid := old(groups[gid]).(groupName := groups[gid].groupName)]
      ensures !ok ==> groups[..] == old(groups[..])
    {
      hide Text, Copied;
      ok := false;
      if 0 <= gid < 15 && groups[gid].gid != NO_GROUP && given {
        assert name[|Text(name)|] == 0;
        if name[0] != 0 {
          assert Text(name) != [];
          var valid := IsValidFormat(name);
          if valid {
            var found := Find(name);
            if found == NO_GROUP {
              assert RowOk(groups[gid], gid);
              var copy := StrCpy(groups[gid].groupName, name);
              CopiedText(groups[gid].groupName, Text(name));
              groups[gid] := groups[gid].(groupName := copy);
              ok := true;
            }
          }
        }
      }
    }

    /** group_setPassword. */
    method SetPassword(gid: int, password: seq<Byte>) returns (ok: bool)
      requires Valid() && 0 in password && |Text(password)| < 16
      modifies groups
      ensures Valid()
      ensures ok <==> IsSet(old(groups[..]), gid) && 58 !in Text(password)
      ensures ok ==> Text(groups[gid].password) == Text(password)
      ensures ok ==> groups[..] == old(groups[..])[gid := old(groups[gid]).(password := groups[gid].password)]
      ensures !ok ==> groups[..] == old(groups[..])
    {
      hide Text, Copied;
      ok := false;
      if 0 <= gid < 15 && groups[gid].gid != NO_GROUP {
        var valid := IsValidFormat(password);
        if valid {
          assert RowOk(groups[gid], gid);
          var copy := StrCpy(groups[gid].password, password);
          CopiedText(groups[gid].password, Text(password));
          groups[gid] := groups[gid].(password := copy);
          ok := true;
        }
      }
    }

    /** group_string. */
    method GroupString(gid: int, out: array<Byte>, itoaBuf: array<Byte>) returns (ok: bool)
      requires Valid() && out != itoaBuf && itoaBuf.Length == 21 && itoaBuf[20] == 0 && out.Length >= 61
      modifies out, itoaBuf
      ensures Valid() && itoaBuf[20] == 0 && (ok <==> IsSet(groups[..], gid))
      ensures Text(out[..]) == if ok then Record(gid, Text(groups[gid].groupName), Text(groups[gid].password)) else []
      ensures 0 in out[..]
    {
      hide Text, Record, Formatted;
      ok := false;
      if 0 <= gid < 15 && groups[gid].gid != NO_GROUP {
        assert RowOk(groups[gid], gid);
        RecordFormatted(gid, groups[gid].groupName, groups[gid].password);
        RecordLength(gid, groups[gid].groupName, groups[gid].password);
        var args := [Dec(gid), Str(groups[gid].groupName), Str(groups[gid].password)];
        ghost var s := Formatted(TEMPLATE, args);
        var _ := SPrintf(out, TEMPLATE, args, itoaBuf);
        assert out[..] == s + [0] + out[|s| + 1..];
        assert out[..][|s|] == 0;
        TextOf(s, out[|s| + 1..]);
        ok := true;
      } else {
        out[0] := 0;
        assert out[..][0] == 0;
      }
    }

    /** The round of group_parse that reads the name. */
    method ReadName(line: array<Byte>, t: Tokenizer, gid: int, ghost before: seq<Group>, ghost f: Fields, ghost p0: int)
      returns (p: int, ok: bool)
      requires Valid() && CanContinue(line[..], t.saved) && Midway(groups[..], before, gid, f, Left(line[..], t.saved), p0, true, 0)
      requires |f.name| < 32
      modifies groups, line, t
      ensures Valid() && CanContinue(line[..], t.saved) && Midway(groups[..], before, gid, f, Left(line[..], t.saved), p, ok, 1)
      ensures p == -1 || |Left(line[..], t.saved)| < |old(Left(line[..], t.saved))|
    {
      hide Text, Piece, NameFree, Midway;
      SeparatorTexts();
      ghost var rows, left := groups[..], Left(line[..], t.saved);
      NameBegins(rows, before, gid, f, left, p0);
      p := NextPiece(t, line, -1, [58, 10, 0]);
      ok := SetGroupname(gid, p != -1, if p != -1 then line[p..] else [0]);
      NameEnds(rows, groups[..], before, gid, f, left, p0, p, ok);
    }

    /** The round of group_parse that reads the password. */
    method ReadPassword(line: array<Byte>, t: Tokenizer, gid: int, ghost before: seq<Group>, ghost f: Fields, ghost p0: int)
      returns (p: int, ok: bool)
      requires Valid() && CanContinue(line[..], t.saved) && Midway(groups[..], before, gid, f, Left(line[..], t.saved), p0, true, 1)
      requires f.password != [] && |f.password| < 16
      modifies groups, line, t
      ensures Valid() && CanContinue(line[..], t.saved) && Midway(groups[..], before, gid, f, Left(line[..], t.saved), p, ok, 2)
      ensures p == -1 || |Left(line[..], t.saved)| < |old(Left(line[..], t.saved))|
    {
      hide Text, Piece, NameFree, Midway;
      SeparatorTexts();
      ghost var rows, left := groups[..], Left(line[..], t.saved);
      NameRead(rows, before, gid, f, left, p0);
      p := NextPiece(t, line, -1, [58, 10, 0]);
      ok := SetPassword(gid, line[p..]);
      PasswordEnds(rows, groups[..], before, gid, f, left, Left(line[..], t.saved), p0, p);
    }

    /** The opening of group_parse: the gid, and the row for it. */
    method ReadGid(line: array<Byte>, t: Tokenizer, ghost f: Fields) returns (gid: int, p: int, ok: bool)
      requires Valid() && 0 in line[..] && f == Parsed(Text(line[..])) && f.gid != []
      modifies groups, line, t
      ensures Valid() && CanContinue(line[..], t.saved)
      ensures Midway(groups[..], old(groups[..]), gid, f, Left(line[..], t.saved), p, ok, 0) && gid == Wrap(Reading(f.gid))
    {
      hide Text, Piece, NameFree, Reading, Wrap, Midway;
      ghost var before := groups[..];
      assert line[0..] == line[..];
      SeparatorTexts();
      p := NextPiece(t, line, 0, [58, 0]);
      gid := AToI(line[p..]);
      ok := Add(gid);
      StartMidway(groups[..], before, gid, f, Left(line[..], t.saved), p, ok);
    }

    /** A round of group_parse behind the password: the field is passed over. */
    method ReadRest(line: array<Byte>, t: Tokenizer, gid: int, ghost before: seq<Group>, ghost f: Fields, ghost p0: int,
                    ghost field: nat) returns (p: int)
      requires Valid() && CanContinue(line[..], t.saved) && Midway(groups[..], before, gid, f, Left(line[..], t.saved), p0, true, field) && field >= 2
      modifies line, t
      ensures Valid() && CanContinue(line[..], t.saved) && Midway(groups[..], before, gid, f, Left(line[..], t.saved), p, true, field + 1)
      ensures p == -1 || |Left(line[..], t.saved)| < |old(Left(line[..], t.saved))|
    {
      hide Text, Piece, Midway;
      SeparatorTexts();
      ghost var left := Left(line[..], t.saved);
      p := NextPiece(t, line, -1, [58, 10, 0]);
      LaterField(groups[..], before, gid, f, left, p0, Left(line[..], t.saved), p, field);
    }

    /** One round of the loop of group_parse. */
    method ReadField(line: array<Byte>, t: Tokenizer, gid: int, field: nat, ghost before: seq<Group>, ghost f: Fields, ghost p0: int)
      returns (p: int, ok: bool)
      requires Valid() && CanContinue(line[..], t.saved) && Midway(groups[..], before, gid, f, Left(line[..], t.saved), p0, true, field) && p0 != -1
      requires (f.name != [] ==> f.password != []) && |f.name| < 32 && |f.password| < 16
      modifies groups, line, t
      ensures Valid() && CanContinue(line[..], t.saved) && Midway(groups[..], before, gid, f, Left(line[..], t.saved), p, ok, field + 1)
      ensures p == -1 || |Left(line[..], t.saved)| < |old(Left(line[..], t.saved))|
    {
      hide Midway, Text, Piece;
      ok := true;
      if field == 0 {
        p, ok := ReadName(line, t, gid, before, f, p0);
      } else if field == 1 {
        NameRead(groups[..], before, gid, f, Left(line[..], t.saved), p0);
        p, ok := ReadPassword(line, t, gid, before, f, p0);
      } else {
        p := ReadRest(line, t, gid, before, f, p0, field);
      }
    }

    /** group_parse. */
    method Parse(line: array<Byte>, t: Tokenizer) returns (ok: bool)
      requires Valid() && 0 in line[..]
      requires var f := Parsed(Text(line[..]));
               f.gid != [] && (f.name != [] ==> f.password != []) && |f.name| < 32 && |f.password| < 16
      modifies groups, line, t
      ensures Valid()
      ensures ParseResult(old(groups[..]), groups[..], Parsed(old(Text(line[..]))), ok)
    {
      ghost var f := Parsed(Text(line[..]));
      ghost var before := groups[..];
      hide *;
      var gid: int, p: int;
      gid, p, ok := ReadGid(line, t, f);
      var field := 0;
      while p != -1 && ok
        invariant Valid() && CanContinue(line[..], t.saved) && 0 <= field
        invariant Midway(groups[..], before, gid, f, Left(line[..], t.saved), p, ok, field)
        decreases if p == -1 then 0 else 1 + |Left(line[..], t.saved)|
      {
        p, ok := ReadField(line, t, gid, field, before, f, p);
        field := field + 1;
      }
      MidwayResult(groups[..], before, gid, f, Left(line[..], t.saved), p, ok, field);
      if !ok && field != 0 {
        StillUnset(groups[..], gid);
        var _ := Delete(gid);
      }
    }
  }

  /** What group_parse did to the rows: a new row when it succeeds; else no set row changed and no other is set. */
  ghost predicate ParseResult(before: seq<Group>, after: seq<Group>, f: Fields, ok: bool) {
    var gid := Wrap(Reading(f.gid));
    && |before| == |after| == 15
    && (ok <==> 0 <= gid < 15 && !IsSet(before, gid) && f.name != [] && NameFree(before, f.name))
    && (ok ==> after[gid].gid == gid && Text(after[gid].groupName) == f.name && Text(after[gid].password) == f.password)
    && (forall i :: 0 <= i < 15 && i != gid ==> after[i] == before[i])
    && (!ok ==> forall i :: 0 <= i < 15 ==> after[i].gid == before[i].gid && (IsSet(before, i) ==> after[i] == before[i]))
  }

  lemma SeparatorTexts()
    ensures Text([58, 0]) == [58] && Text([58, 10, 0]) == [58, 10]
  {
    TextOf([58], []);
    TextOf([58, 10], []);
    assert [58] + [0] + [] == [58, 0] && [58, 10] + [0] + [] == [58, 10, 0];
  }

  /** The row added with an empty name takes no name from anyone. */
  lemma AddedName(before: seq<Group>, after: seq<Group>, gid: int, ok: bool, name: seq<Byte>)
    requires ok ==> 0 <= gid < |before| && |after| == |before| && after == before[gid := after[gid]]
    requires ok ==> before[gid].gid == -1 && Text(after[gid].groupName) == []
    ensures ok && name != [] ==> (NameFree(after, name) <==> NameFree(before, name))
  {
    hide Text;
    if ok && name != [] && NameFree(after, name) {
      forall i | 0 <= i < |before| && IsSet(before, i) ensures Text(before[i].groupName) != name {
        assert IsSet(after, i);
      }
    }
    if ok && name != [] && NameFree(before, name) {
      forall i | 0 <= i < |after| && IsSet(after, i) ensures Text(after[i].groupName) != name {
        assert i != gid ==> IsSet(before, i);
      }
    }
  }

  lemma RecordLength(gid: Int32, name: seq<Byte>, password: seq<Byte>)
    requires |name| == 32 && |password| == 16 && 0 in name && 0 in password
    ensures |Record(gid, Text(name), Text(password))| <= 59 && 0 !in Record(gid, Text(name), Text(password))
  {
    hide Text, Decimal;
    DecimalLength(gid);
  }

  lemma PlainRow(g: Group, gid: int)
    requires RowOk(g, gid) && 0 <= gid < 15 && Plain(Text(g.groupName)) && Plain(Text(g.password))
    ensures var f := Parsed(Record(gid, Text(g.groupName), Text(g.password)));
            && f.name == Text(g.groupName) && f.password == Text(g.password) && f.gid != []
            && |f.name| < 32 && |f.password| < 16 && Wrap(Reading(f.gid)) == gid
  {
    ParsedRecord(gid, Text(g.groupName), Text(g.password));
    NotNegative(gid);
    hide Text, Parsed, Record, Numeral, Reading, Wrap;
  }

  /**
   * Printing a group and parsing the line rebuilds the record, exactly when the table parsed into has
   * that gid and that name free.
   */
  method PrintThenParse(from: GroupTable, gid: int, to: GroupTable, line: array<Byte>, itoaBuf: array<Byte>, t: Tokenizer)
    returns (ok: bool)
    requires from.Valid() && to.Valid() && from.groups != to.groups && IsSet(from.groups[..], gid)
    requires Plain(Text(from.groups[gid].groupName)) && Plain(Text(from.groups[gid].password))
    requires line != itoaBuf && itoaBuf.Length == 21 && itoaBuf[20] == 0 && line.Length >= 61
    modifies to.groups, line, itoaBuf, t
    ensures to.Valid()
    ensures ok <==> !IsSet(old(to.groups[..]), gid) && NameFree(old(to.groups[..]), Text(from.groups[gid].groupName))
    ensures ok ==> to.groups[gid].gid == gid
                   && Text(to.groups[gid].groupName) == Text(from.groups[gid].groupName)
                   && Text(to.groups[gid].password) == Text(from.groups[gid].password)
    ensures forall i :: 0 <= i < 15 && i != gid ==> to.groups[i] == old(to.groups[i])
  {
    hide Text, Parsed, Record, NameFree, Reading, Wrap, Plain;
    assert RowOk(from.groups[gid], gid);
    PlainRow(from.groups[gid], gid);
    assert Text(from.groups[gid].groupName) != [] && Text(from.groups[gid].password) != [] by {
      PlainNotEmpty(Text(from.groups[gid].groupName));
      PlainNotEmpty(Text(from.groups[gid].password));
    }
    var _ := from.GroupString(gid, line, itoaBuf);
    ok := to.Parse(line, t);
  }

  lemma PlainNotEmpty(s: seq<Byte>)
    requires Plain(s)
    ensures s != []
  {
  }
}
