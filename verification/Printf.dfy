/** sprintf for the conversions %c, %s and %d. */
module Printf {
  import opened Bytes
  import opened CStrings
  import opened Numerals

  datatype Arg = Chr(c: Byte) | Str(buf: seq<Byte>) | Dec(i: Int32)

  /** No lone % ends the template, and each conversion finds an argument of its type. */
  predicate Matches(template: seq<Byte>, args: seq<Arg>) {
    if template == [] then true
    else if template[0] != 37 then Matches(template[1..], args)
    else
      |template| >= 2 &&
      match template[1]
      case 99 => args != [] && args[0].Chr? && Matches(template[2..], args[1..])
      case 115 => args != [] && args[0].Str? && 0 in args[0].buf && Matches(template[2..], args[1..])
      case 100 => args != [] && args[0].Dec? && Matches(template[2..], args[1..])
      case _ => Matches(template[2..], args)
  }

  function Shown(arg: Arg): seq<Byte> {
    match arg
    case Chr(c) => [c]
    case Str(buf) => Text(buf)
    case Dec(i) => Decimal(i)
  }

  predicate Converts(c: Byte) {
    c == 99 || c == 115 || c == 100
  }

  /** The output: every argument in place of its conversion; an unknown conversion shows nothing. */
  function Formatted(template: seq<Byte>, args: seq<Arg>): seq<Byte>
    requires Matches(template, args)
  {
    if template == [] then []
    else if template[0] != 37 then [template[0]] + Formatted(template[1..], args)
    else if Converts(template[1]) then Shown(args[0]) + Formatted(template[2..], args[1..])
    else Formatted(template[2..], args)
  }

  lemma FormattedPlain(c: Byte, rest: seq<Byte>, args: seq<Arg>)
    requires c != 37 && Matches(rest, args)
    ensures Matches([c] + rest, args) && Formatted([c] + rest, args) == [c] + Formatted(rest, args)
  {
    assert ([c] + rest)[1..] == rest;
  }

  lemma FormattedArg(c: Byte, rest: seq<Byte>, arg: Arg, args: seq<Arg>)
    requires Matches(rest, args)
    requires (c == 99 && arg.Chr?) || (c == 115 && arg.Str? && 0 in arg.buf) || (c == 100 && arg.Dec?)
    ensures Matches([37, c] + rest, [arg] + args)
    ensures Formatted([37, c] + rest, [arg] + args) == Shown(arg) + Formatted(rest, args)
  {
    hide Shown;
    assert ([37, c] + rest)[2..] == rest && ([arg] + args)[1..] == args;
  }

  /** An unknown conversion shows nothing and takes no argument. */
  lemma FormattedUnknown(c: Byte, rest: seq<Byte>, args: seq<Arg>)
    requires c != 99 && c != 115 && c != 100 && Matches(rest, args)
    ensures Matches([37, c] + rest, args) && Formatted([37, c] + rest, args) == Formatted(rest, args)
  {
    assert ([37, c] + rest)[2..] == rest;
  }

  /** How an argument is shown: a character as it is, a string up to its terminator, a number in decimal. */
  lemma ArgShown(arg: Arg)
    ensures arg.Chr? ==> Shown(arg) == [arg.c]
    ensures arg.Str? && 0 in arg.buf ==>
      |Shown(arg)| < |arg.buf| && Shown(arg) == arg.buf[..|Shown(arg)|] && 0 !in Shown(arg) && arg.buf[|Shown(arg)|] == 0
    ensures arg.Dec? && arg.i >= 0 ==> Shown(arg) == Numeral(arg.i, 10)
    ensures arg.Dec? && arg.i < 0 ==> var i: int := arg.i; Shown(arg) == [45] + Numeral(-i, 10)
  {
    hide Numeral;
  }

  /** How many conversions show an argument. */
  function Conversions(template: seq<Byte>): nat {
    if |template| < 2 then 0
    else if template[0] != 37 then Conversions(template[1..])
    else (if Converts(template[1]) then 1 else 0) + Conversions(template[2..])
  }

  /** That many arguments are used, and no fewer would do. */
  lemma {:induction false} ConversionsUsed(template: seq<Byte>, args: seq<Arg>)
    requires Matches(template, args)
    ensures Conversions(template) <= |args|
    ensures Matches(template, args[..Conversions(template)])
    ensures Formatted(template, args[..Conversions(template)]) == Formatted(template, args)
    ensures forall k :: 0 <= k < Conversions(template) ==> !Matches(template, args[..k])
  {
    hide Shown;
    if template == [] {
    } else if template[0] != 37 {
      ConversionsUsed(template[1..], args);
    } else if Converts(template[1]) {
      ConversionsUsed(template[2..], args[1..]);
      var n := Conversions(template);
      assert args[..n][1..] == args[1..][..n - 1];
      forall k | 0 <= k < n ensures !Matches(template, args[..k]) {
        if k > 0 {
          assert args[..k][1..] == args[1..][..k - 1];
        }
      }
    } else {
      ConversionsUsed(template[2..], args);
    }
  }

  /** memcpy into the buffer from position at on. */
  method MemCpy(to: array<Byte>, at: nat, data: seq<Byte>)
    requires at + |data| <= to.Length
    modifies to
    ensures to[..at + |data|] == old(to[..at]) + data && to[at + |data|..] == old(to[at + |data|..])
  {
    ghost var front := to[..at];
    for i := 0 to |data|
      invariant to[..at] == front && forall k :: 0 <= k < i ==> to[at + k] == data[k]
      invariant to[at + i..] == old(to[at + i..])
    {
      to[at + i] := data[i];
    }
    assert to[at..at + |data|] == data;
    assert to[..at + |data|] == to[..at] + to[at..at + |data|];
  }

  /** One conversion of sprintf: the argument goes to position at. */
  method Convert(s: array<Byte>, at: nat, arg: Arg, itoaBuf: array<Byte>)
    requires s != itoaBuf && itoaBuf.Length == 21 && itoaBuf[20] == 0
    requires at + |Shown(arg)| <= s.Length
    modifies s, itoaBuf
    ensures itoaBuf[20] == 0 && s[..at + |Shown(arg)|] == old(s[..at]) + Shown(arg)
    ensures s[at + |Shown(arg)|..] == old(s[at + |Shown(arg)|..])
  {
    hide Decimal, Text;
    match arg
    case Chr(c) =>
      ghost var rest := s[at + 1..];
      s[at] := c;
      assert s[..at + 1] == s[..at] + [c] && s[at + 1..] == rest;
    case Str(buf) =>
      MemCpy(s, at, Text(buf));
    case Dec(i) =>
      var p := Itoa(i, itoaBuf);
      assert itoaBuf[p..20] == itoaBuf[p..][..20 - p] == Decimal(i);
      MemCpy(s, at, itoaBuf[p..20]);
  }

  /** sprintf: the formatted text and its terminator. */
  method SPrintf(s: array<Byte>, template: seq<Byte>, args: seq<Arg>, itoaBuf: array<Byte>) returns (read: nat)
    requires s != itoaBuf && itoaBuf.Length == 21 && itoaBuf[20] == 0
    requires Matches(template, args) && |Formatted(template, args)| < s.Length
    modifies s, itoaBuf
    ensures itoaBuf[20] == 0
    ensures read == Conversions(template)
    ensures s[..|Formatted(template, args)| + 1] == Formatted(template, args) + [0]
    ensures s[|Formatted(template, args)| + 1..] == old(s[|Formatted(template, args)| + 1..])
  {
    hide *;
    ghost var all, was := Formatted(template, args), s[..];
    var k, at, next := 0, 0, 0;
    read := 0;
    StartPending(template, args);
    assert s[..0] == [];
    while k < |template|
      invariant 0 <= k <= |template| && 0 <= at <= |all| < s.Length && 0 <= next <= |args| && itoaBuf[20] == 0
      invariant Pending(template, args, k, next, s[..at], read) && s[at..] == was[at..]
    {
      ghost var done := s[..at];
      if template[k] != 37 {
        PlainStep(template, args, k, next, done, read);
        s[at] := template[k];
        assert s[..at + 1] == done + [template[k]] && s[at + 1..] == was[at + 1..];
        at, k := at + 1, k + 1;
      } else {
        ConvertStep(template, args, k, next, done, read);
        if Converts(template[k + 1]) {
          Convert(s, at, args[next], itoaBuf);
          assert s[at + |Shown(args[next])|..] == was[at..][|Shown(args[next])|..] == was[at + |Shown(args[next])|..];
          at, next, read := at + |Shown(args[next])|, next + 1, read + 1;
        }
        k := k + 2;
      }
    }
    s[at] := 0;
    EndPending(template, args, next, s[..at], read);
    assert s[..at + 1] == s[..at] + [0] && s[at + 1..] == was[at + 1..];
  }

  /** done followed by what the rest of the template shows is the whole output. */
  ghost predicate Pending(template: seq<Byte>, args: seq<Arg>, k: nat, next: nat, done: seq<Byte>, read: nat)
    requires Matches(template, args)
  {
    && k <= |template| && next <= |args| && Matches(template[k..], args[next..])
    && done + Formatted(template[k..], args[next..]) == Formatted(template, args)
    && read + Conversions(template[k..]) == Conversions(template)
  }

  lemma StartPending(template: seq<Byte>, args: seq<Arg>)
    requires Matches(template, args)
    ensures Pending(template, args, 0, 0, [], 0)
  {
    assert template[0..] == template && args[0..] == args;
    assert [] + Formatted(template, args) == Formatted(template, args);
  }

  lemma PlainStep(template: seq<Byte>, args: seq<Arg>, k: nat, next: nat, done: seq<Byte>, read: nat)
    requires Matches(template, args) && Pending(template, args, k, next, done, read)
    requires k < |template| && template[k] != 37
    ensures Pending(template, args, k + 1, next, done + [template[k]], read)
    ensures |done| < |Formatted(template, args)|
  {
    assert template[k..][1..] == template[k + 1..];
    var rest := Formatted(template[k + 1..], args[next..]);
    assert done + ([template[k]] + rest) == done + [template[k]] + rest;
  }

  lemma ConvertStep(template: seq<Byte>, args: seq<Arg>, k: nat, next: nat, done: seq<Byte>, read: nat)
    requires Matches(template, args) && Pending(template, args, k, next, done, read)
    requires k < |template| && template[k] == 37
    ensures k + 1 < |template|
    ensures if Converts(template[k + 1]) then
              && next < |args| && Pending(template, args, k + 2, next + 1, done + Shown(args[next]), read + 1)
              && |done| + |Shown(args[next])| <= |Formatted(template, args)|
            else Pending(template, args, k + 2, next, done, read)
  {
    hide Shown;
    assert template[k..][2..] == template[k + 2..];
    if Converts(template[k + 1]) {
      assert args[next..][1..] == args[next + 1..];
      var rest := Formatted(template[k + 2..], args[next + 1..]);
      assert done + (Shown(args[next]) + rest) == done + Shown(args[next]) + rest;
    }
  }

  lemma EndPending(template: seq<Byte>, args: seq<Arg>, next: nat, done: seq<Byte>, read: nat)
    requires Matches(template, args) && Pending(template, args, |template|, next, done, read)
    ensures done == Formatted(template, args) && read == Conversions(template)
  {
    assert template[|template|..] == [];
  }
}
