/** Commands of the Redis protocol: `redisFormatCommandArgv` of `hiredis.c` prints an argument
    vector into a buffer, and `nextArgument` of `async.c` walks over the printed command. */
module Resp {
  import opened Basics
  import opened Options

  const NUL: Octet := 0
  const DOLLAR: Octet := 36
  const STAR: Octet := 42

  // ---------------------------------------------------------------- decimal numbers

  lemma FourDigits(v: nat)
    requires v >= 10000
    ensures |Decimal(v)| == |Decimal(v / 10000)| + 4
  {
    var a := v / 10;
    var b := a / 10;
    var c := b / 10;
    assert |Decimal(v)| == |Decimal(a)| + 1;
    assert |Decimal(a)| == |Decimal(b)| + 1;
    assert |Decimal(b)| == |Decimal(c)| + 1;
    assert |Decimal(c)| == |Decimal(c / 10)| + 1;
    assert c / 10 == v / 10000;
  }

  /** `countDigits` */
  method CountDigits(n: nat) returns (result: nat)
    ensures result == |Decimal(n)|
  {
    var v := n;
    result := 1;
    while true
      invariant |Decimal(n)| == result - 1 + |Decimal(v)|
      decreases v
    {
      if v < 10 {
        return;
      }
      if v < 100 {
        return result + 1;
      }
      if v < 1000 {
        return result + 2;
      }
      assert |Decimal(v)| == |Decimal(v / 10)| + 1 == |Decimal(v / 10 / 10)| + 2;
      if v < 10000 {
        return result + 3;
      }
      FourDigits(v);
      v := v / 10000;
      result := result + 4;
    }
  }

  // ---------------------------------------------------------------- the command

  function Line(mark: Octet, n: nat): Octets {
    [mark] + Decimal(n) + [CR, LF]
  }

  function Bulk(arg: Octets): Octets {
    Line(DOLLAR, |arg|) + arg + [CR, LF]
  }

  function Bulks(args: seq<Octets>): Octets {
    if args == [] then [] else Bulk(args[0]) + Bulks(args[1..])
  }

  function Command(args: seq<Octets>): Octets {
    Line(STAR, |args|) + Bulks(args)
  }

  lemma {:induction false} BulksSnoc(args: seq<Octets>, last: Octets)
    ensures Bulks(args + [last]) == Bulks(args) + Bulk(last)
  {
    if args == [] {
    } else {
      BulksSnoc(args[1..], last);
      assert (args + [last])[1..] == args[1..] + [last];
    }
  }

  lemma OneMore(args: seq<Octets>, j: nat)
    requires j < |args|
    ensures Bulks(args[..j + 1]) == Bulks(args[..j]) + Bulk(args[j])
    ensures Bulks(args[j..]) == Bulk(args[j]) + Bulks(args[j + 1..])
  {
    BulksSnoc(args[..j], args[j]);
    assert args[..j + 1] == args[..j] + [args[j]];
    assert args[j..][1..] == args[j + 1..];
  }

  method Bulklen(len: nat) returns (n: nat)
    ensures forall arg: Octets :: |arg| == len ==> n == |Bulk(arg)|
  {
    var digits := CountDigits(len);
    n := 1 + digits + 2 + len + 2;
  }

  /** `sprintf` at a position, with the terminator that it writes. */
  method Sprintf(cmd: array<Octet>, pos: nat, text: Octets) returns (n: nat)
    requires pos + |text| < cmd.Length
    modifies cmd
    ensures n == |text| && cmd[..pos + n] == old(cmd[..pos]) + text
  {
    Memcpy(cmd, pos, text);
    cmd[pos + |text|] := NUL;
    n := |text|;
  }

  method Memcpy(cmd: array<Octet>, pos: nat, data: Octets)
    requires pos + |data| <= cmd.Length
    modifies cmd
    ensures cmd[..pos + |data|] == old(cmd[..pos]) + data
  {
    forall i | 0 <= i < |data| {
      cmd[pos + i] := data[i];
    }
    assert forall i :: pos <= i < pos + |data| ==> cmd[i] == data[i - pos];
  }

  /** One round of the printing loop. */
  method PutBulk(cmd: array<Octet>, start: nat, arg: Octets) returns (pos: nat)
    requires start + |Bulk(arg)| < cmd.Length
    modifies cmd
    ensures pos == start + |Bulk(arg)| && cmd[..pos] == old(cmd[..start]) + Bulk(arg)
  {
    var n := Sprintf(cmd, start, Line(DOLLAR, |arg|));
    pos := start + n;
    Memcpy(cmd, pos, arg);
    pos := pos + |arg|;
    cmd[pos] := CR;
    cmd[pos + 1] := LF;
    pos := pos + 2;
    assert cmd[..pos] == cmd[..pos - 2] + [CR, LF];
  }

  /** The first loop of `redisFormatCommandArgv`. */
  method TotalLength(argv: seq<Octets>) returns (totlen: nat)
    ensures totlen == |Command(argv)|
  {
    var digits := CountDigits(|argv|);
    totlen := 1 + digits + 2;
    for j := 0 to |argv|
      invariant totlen == |Line(STAR, |argv|)| + |Bulks(argv[..j])|
    {
      var n := Bulklen(|argv[j]|);
      totlen := totlen + n;
      OneMore(argv, j);
    }
    assert argv[..|argv|] == argv;
  }

  /** The second loop. */
  method PutBulks(cmd: array<Octet>, start: nat, argv: seq<Octets>) returns (pos: nat)
    requires start + |Bulks(argv)| < cmd.Length
    modifies cmd
    ensures pos == start + |Bulks(argv)| && cmd[..pos] == old(cmd[..start]) + Bulks(argv)
  {
    ghost var head := cmd[..start];
    pos := start;
    for j := 0 to |argv|
      invariant pos == start + |Bulks(argv[..j])| && pos + |Bulks(argv[j..])| < cmd.Length
      invariant cmd[..pos] == head + Bulks(argv[..j])
    {
      OneMore(argv, j);
      pos := PutBulk(cmd, pos, argv[j]);
    }
    assert argv[..|argv|] == argv;
  }

  /** `redisFormatCommandArgv`. The room asked for is what is written, so that no write is out
      of bounds and the assertion on the position holds. */
  method FormatCommandArgv(argv: seq<Octets>) returns (cmd: array<Octet>, totlen: nat)
    ensures totlen == |Command(argv)| && cmd[..] == Command(argv) + [NUL]
  {
    totlen := TotalLength(argv);
    cmd := new Octet[totlen + 1](_ => 0);
    var pos := Sprintf(cmd, 0, Line(STAR, |argv|));
    pos := PutBulks(cmd, pos, argv);
    assert pos == totlen;
    cmd[pos] := NUL;
    assert cmd[..] == cmd[..pos] + [NUL];
  }

  // ---------------------------------------------------------------- walking the command

  /** `strchr` from an index on: the terminator ends the search. */
  function StrChr(s: Octets, i: nat, c: Octet): (r: Option<nat>)
    ensures r.Some? ==> i <= r.value < |s| && s[r.value] == c
    decreases |s| - i
  {
    if i >= |s| then None
    else if s[i] == c then Some(i)
    else if s[i] == NUL then None
    else StrChr(s, i + 1, c)
  }

  predicate IsSpace(c: Octet) {
    c == 32 || 9 <= c <= 13
  }

  function SkipSpaces(s: Octets, i: nat): nat
    decreases |s| - i
  {
    if i < |s| && IsSpace(s[i]) then SkipSpaces(s, i + 1) else i
  }

  function Digits(s: Octets, i: nat, acc: nat): nat
    decreases |s| - i
  {
    if i < |s| && IsDigit(s[i]) then Digits(s, i + 1, acc * 10 + (s[i] - 48)) else acc
  }

  /** `strtol` in base 10, with a 64-bit long. */
  function Strtol(s: Octets, i: nat): int {
    var k := SkipSpaces(s, i);
    if k < |s| && s[k] == 45 then
      var v: int := Digits(s, k + 1, 0);
      if v <= LONG_MAX then 0 - v else -0x8000_0000_0000_0000
    else
      var v := Digits(s, if k < |s| && s[k] == 43 then k + 1 else k, 0);
      if v <= LONG_MAX then v else LONG_MAX
  }

  datatype Next = NoArgument | AssertionFails | Argument(str: nat, len: int, next: int)

  /** `nextArgument` */
  function NextArgument(cmd: Octets, start: nat): Next
    requires start < |cmd|
  {
    var p := if cmd[start] != DOLLAR then StrChr(cmd, start, DOLLAR) else Some(start);
    if p.None? then NoArgument
    else
      var len := ToInt(Strtol(cmd, p.value + 1));
      var q := StrChr(cmd, p.value, CR);
      if q.None? then AssertionFails else Argument(q.value + 2, len, q.value + 2 + len + 2)
  }

  // ---------------------------------------------------------------- the walk inverts the printing

  lemma {:induction false} StrChrFinds(s: Octets, i: nat, k: nat, c: Octet)
    requires i <= k < |s| && s[k] == c && forall j :: i <= j < k ==> s[j] != c && s[j] != NUL
    ensures StrChr(s, i, c) == Some(k)
    decreases k - i
  {
    if k <= i {
    } else {
      StrChrFinds(s, i + 1, k, c);
    }
  }

  lemma {:induction false} StrChrEnds(s: Octets, i: nat, k: nat, c: Octet)
    requires i <= k < |s| && c != NUL && s[k] == NUL && forall j :: i <= j < k ==> s[j] != c
    ensures StrChr(s, i, c) == None
    decreases k - i
  {
    if k <= i {
    } else {
      StrChrEnds(s, i + 1, k, c);
    }
  }

  lemma {:induction false} DigitsRead(s: Octets, i: nat, v: nat)
    requires i + |Decimal(v)| <= |s| && s[i..i + |Decimal(v)|] == Decimal(v)
    ensures Digits(s, i, 0) == Digits(s, i + |Decimal(v)|, v)
    decreases v
  {
    var d := Decimal(v);
    var k := i + |d| - 1;
    assert s[k] == d[|d| - 1];
    if v < 10 {
    } else {
      assert s[i..k] == s[i..k + 1][..|d| - 1] == Decimal(v / 10);
      DigitsRead(s, i, v / 10);
    }
  }

  /** Reading the line of a bulk. */
  lemma LineRead(s: Octets, i: nat, n: nat)
    requires i + |Line(DOLLAR, n)| <= |s| && s[i..i + |Line(DOLLAR, n)|] == Line(DOLLAR, n)
    ensures Strtol(s, i + 1) == (if n <= LONG_MAX then n else LONG_MAX)
    ensures StrChr(s, i, CR) == Some(i + |Line(DOLLAR, n)| - 2)
  {
    var l, d := Line(DOLLAR, n), Decimal(n);
    assert forall j :: 0 <= j < |l| ==> s[i + j] == l[j];
    assert s[i + 1..i + 1 + |d|] == l[1..1 + |d|] == d;
    DigitsRead(s, i + 1, n);
    assert IsDigit(s[i + 1]);
    StrChrFinds(s, i, i + 1 + |d|, CR);
  }

  /** The length survives the cast exactly when it is an int. */
  lemma CastExact(n: nat)
    ensures ToInt(if n <= LONG_MAX then n else LONG_MAX) == n <==> n < 0x8000_0000
  {
  }

  lemma SliceOf(s: Octets, i: nat, b: Octets, j: nat, k: nat)
    requires i + |b| <= |s| && s[i..i + |b|] == b && j <= k <= |b|
    ensures s[i + j..i + k] == b[j..k]
  {
    var t := s[i..i + |b|];
    forall x | 0 <= x < k - j
      ensures s[i + j..i + k][x] == b[j..k][x]
    {
      assert t[j + x] == s[i + j + x];
    }
  }

  lemma BulkParts(arg: Octets)
    ensures var l, b := Line(DOLLAR, |arg|), Bulk(arg);
            |b| == |l| + |arg| + 2 && b[0..|l|] == l && b[|l|..|l| + |arg|] == arg && l[0] == DOLLAR
  {
  }

  /** A call at a dollar sign, with what it finds there. */
  lemma CallAtDollar(s: Octets, i: nat, n: nat, q: nat)
    requires i < |s| && s[i] == DOLLAR && Strtol(s, i + 1) == n && StrChr(s, i, CR) == Some(q)
    ensures NextArgument(s, i) == Argument(q + 2, ToInt(n), q + 2 + ToInt(n) + 2)
  {
  }

  lemma BulkSlices(s: Octets, i: nat, arg: Octets)
    requires i + |Bulk(arg)| <= |s| && s[i..i + |Bulk(arg)|] == Bulk(arg)
    ensures var k := i + |Line(DOLLAR, |arg|)|;
            && i < k && k + |arg| + 2 == i + |Bulk(arg)|
            && s[i] == DOLLAR && s[i..k] == Line(DOLLAR, |arg|) && s[k..k + |arg|] == arg
  {
    var l, b := Line(DOLLAR, |arg|), Bulk(arg);
    BulkParts(arg);
    SliceOf(s, i, b, 0, |l|);
    SliceOf(s, i, b, |l|, |l| + |arg|);
    assert s[i] == s[i + 0..i + |l|][0];
  }

  lemma BulkRead(s: Octets, i: nat, arg: Octets, r: Next)
    requires i + |Bulk(arg)| <= |s| && s[i..i + |Bulk(arg)|] == Bulk(arg) && r == NextArgument(s, i)
    ensures r.Argument? && (r.len == |arg| <==> |arg| < 0x8000_0000)
    ensures r.str + |arg| <= |s| && s[r.str..r.str + |arg|] == arg
    ensures r.len == |arg| ==> r.next == i + |Bulk(arg)|
  {
    var n := if |arg| <= LONG_MAX then |arg| else LONG_MAX;
    BulkSlices(s, i, arg);
    LineRead(s, i, |arg|);
    CallAtDollar(s, i, n, i + |Line(DOLLAR, |arg|)| - 2);
    CastExact(|arg|);
  }

  // ---------------------------------------------------------------- all arguments in turn

  /** Where the bulk of an argument starts, and behind the last one the terminator. */
  function Position(args: seq<Octets>, j: nat): nat
    requires j <= |args|
  {
    |Line(STAR, |args|)| + |Bulks(args[..j])|
  }

  lemma {:induction false} BulksSplit(args: seq<Octets>, j: nat)
    requires j <= |args|
    ensures Bulks(args) == Bulks(args[..j]) + Bulks(args[j..])
    decreases j
  {
    if j == 0 {
      assert args[0..] == args;
    } else {
      BulksSplit(args, j - 1);
      OneMore(args, j - 1);
    }
  }

  lemma Regroup(h: Octets, b: Octets, c: Octets, e: Octets, z: Octets)
    ensures (h + (b + (c + e))) + z == h + b + c + (e + z)
  {
  }

  lemma BulkAt(args: seq<Octets>, j: nat, s: Octets)
    requires j < |args| && s == Command(args) + [NUL]
    ensures var k := Position(args, j);
            && k + |Bulk(args[j])| == Position(args, j + 1) < |s|
            && s[k..k + |Bulk(args[j])|] == Bulk(args[j])
  {
    var h, b, c, d := Line(STAR, |args|), Bulks(args[..j]), Bulk(args[j]), Bulks(args[j + 1..]) + [NUL];
    BulksSplit(args, j);
    OneMore(args, j);
    Regroup(h, b, c, Bulks(args[j + 1..]), [NUL]);
    Middle(h + b, c, d);
  }

  /** The call at the bulk of an argument finds its octets, whatever they are; the length it
      reports is right, and the next call is at the next bulk, exactly when the length is an
      int. */
  lemma CallAt(args: seq<Octets>, j: nat, s: Octets, r: Next)
    requires j < |args| && s == Command(args) + [NUL] && Position(args, j) < |s|
    requires r == NextArgument(s, Position(args, j))
    ensures r.Argument? && r.str + |args[j]| <= |s| && s[r.str..r.str + |args[j]|] == args[j]
    ensures r.len == |args[j]| <==> |args[j]| < 0x8000_0000
    ensures |args[j]| < 0x8000_0000 ==> r.next == Position(args, j + 1)
  {
    BulkAt(args, j, s);
    BulkRead(s, Position(args, j), args[j], r);
  }

  lemma CallAtEnd(args: seq<Octets>, s: Octets)
    requires s == Command(args) + [NUL]
    ensures Position(args, |args|) == |s| - 1 && NextArgument(s, |s| - 1) == NoArgument
  {
    assert args[..|args|] == args;
    assert s[|s| - 1] == NUL;
    assert StrChr(s, |s| - 1, DOLLAR) == None;
  }

  /** The first call starts at the asterisk, and finds the same as a call at the first bulk. */
  lemma HeaderSkipped(args: seq<Octets>, s: Octets)
    requires s == Command(args) + [NUL]
    ensures Position(args, 0) < |s| && NextArgument(s, 0) == NextArgument(s, Position(args, 0))
  {
    var h := Line(STAR, |args|);
    assert args[..0] == [] && Position(args, 0) == |h|;
    assert forall j :: 0 <= j < |h| ==> s[j] == h[j] && h[j] != DOLLAR && h[j] != NUL;
    if args == [] {
      assert s[|h|] == NUL;
      StrChrEnds(s, 0, |h|, DOLLAR);
      assert StrChr(s, |h|, DOLLAR) == None;
    } else {
      BulkAt(args, 0, s);
      assert s[|h|] == s[|h|..|h| + |Bulk(args[0])|][0] == DOLLAR;
      StrChrFinds(s, 0, |h|, DOLLAR);
    }
  }

  predicate AllInts(args: seq<Octets>) {
    forall i :: 0 <= i < |args| ==> |args[i]| < 0x8000_0000
  }

  /** Calls until there is no more argument, as `__redisAsyncCommand` makes them. Over a printed
      command they give the arguments that were printed. */
  method Walk(cmd: seq<Octet>, ghost args: seq<Octets>) returns (out: seq<Octets>)
    requires cmd == Command(args) + [NUL] && AllInts(args)
    ensures out == args
  {
    out := [];
    HeaderSkipped(args, cmd);
    var r := NextArgument(cmd, 0);
    while r.Argument?
      invariant |out| <= |args| && out == args[..|out|]
      invariant Position(args, |out|) < |cmd| && r == NextArgument(cmd, Position(args, |out|))
      decreases |args| - |out|
    {
      ghost var j := |out|;
      NextCall(args, j, cmd, r);
      out := out + [cmd[r.str..r.str + r.len]];
      r := NextArgument(cmd, r.next);
    }
    NextCall(args, |out|, cmd, r);
    assert args[..|args|] == args;
  }

  lemma NextCall(args: seq<Octets>, j: nat, s: Octets, r: Next)
    requires j <= |args| && s == Command(args) + [NUL] && AllInts(args) && Position(args, j) < |s|
    requires r == NextArgument(s, Position(args, j))
    ensures r.Argument? <==> j < |args|
    ensures j < |args| ==>
              && 0 <= r.len && r.str + r.len <= |s| && s[r.str..r.str + r.len] == args[j]
              && r.next == Position(args, j + 1) < |s|
  {
    if j < |args| {
      CallAt(args, j, s, r);
      BulkAt(args, j, s);
    } else {
      CallAtEnd(args, s);
    }
  }
}
