/** Day 3: scanning corrupted memory for `mul(a,b)` instructions, and for
    the `do()` / `don't()` switches of part two, over the input's bytes. */
module Day03 {
  import opened Wrappers
  import opened Util

  newtype byte = x: int | 0 <= x < 256

  /** `b"mul("`. */
  const MulOpen: seq<byte> := [109, 117, 108, 40]
  /** `b"do()"`. */
  const DoCall: seq<byte> := [100, 111, 40, 41]
  /** `b"don't()"`. */
  const DontCall: seq<byte> := [100, 111, 110, 39, 116, 40, 41]
  /** `b','` and `b')'`. */
  const Comma: byte := 44
  const Close: byte := 41

  /** `u8::is_ascii_digit`. */
  predicate IsDigit(b: byte)
  {
    48 <= b <= 57
  }

  predicate AllDigits(ds: seq<byte>)
  {
    forall k :: 0 <= k < |ds| ==> IsDigit(ds[k])
  }

  predicate StartsWith(bs: seq<byte>, pattern: seq<byte>)
  {
    |pattern| <= |bs| && bs[..|pattern|] == pattern
  }

  datatype Command = Mul(product: nat) | Do | Dont

  /** The length of the run of digits at the start of bs. */
  function DigitRun(bs: seq<byte>): (n: nat)
    ensures n <= |bs| && AllDigits(bs[..n])
    ensures n < |bs| ==> !IsDigit(bs[n])
  {
    if bs == [] || !IsDigit(bs[0]) then 0
    else
      var n := 1 + DigitRun(bs[1..]);
      assert forall k :: 1 <= k < n ==> bs[..n][k] == bs[1..][..n - 1][k - 1];
      n
  }

  /** A run of digits followed by a non-digit is exactly the digit run. */
  lemma DigitRunExact(bs: seq<byte>, n: nat)
    requires n <= |bs| && AllDigits(bs[..n]) && (n < |bs| ==> !IsDigit(bs[n]))
    ensures DigitRun(bs) == n
  {
    var m := DigitRun(bs);
    PrefixDigits(bs, n);
    PrefixDigits(bs, m);
  }

  lemma PrefixDigits(bs: seq<byte>, n: nat)
    requires n <= |bs| && AllDigits(bs[..n])
    ensures forall k :: 0 <= k < n ==> IsDigit(bs[k])
  {
    assert forall k :: 0 <= k < n ==> bs[..n][k] == bs[k];
  }

  /** The decimal value of a run of digits (what `atoi` returns on it). */
  function DecimalValue(ds: seq<byte>): nat
    requires AllDigits(ds)
  {
    if ds == [] then 0
    else
      var n := |ds| - 1;
      assert AllDigits(ds[..n]) by {
        assert forall k :: 0 <= k < n ==> ds[..n][k] == ds[k];
      }
      DecimalValue(ds[..n]) * 10 + (ds[n] as int - 48)
  }

  /** `parse_number`: at most three leading digits and their value; None
      when the first byte is not a digit. */
  function ParseNumber(bs: seq<byte>): (r: Option<(nat, nat)>)
    ensures r.None? <==> bs == [] || !IsDigit(bs[0])
    ensures r.Some? ==> (
      var (value, len) := r.value;
      1 <= len <= 3 && len <= |bs| && AllDigits(bs[..len]) &&
      (len < 3 ==> len == |bs| || !IsDigit(bs[len])) &&
      value == DecimalValue(bs[..len]))
  {
    var len := Min(DigitRun(bs), 3);
    if len == 0 then None
    else
      assert AllDigits(bs[..len]) by {
        assert forall k :: 0 <= k < len ==> bs[..len][k] == bs[..DigitRun(bs)][k];
      }
      Some((DecimalValue(bs[..len]), len))
  }

  /** A well-formed `mul(a,b)` at the start of bs, with operands of la and
      lb digits. */
  predicate MulShape(bs: seq<byte>, la: nat, lb: nat)
  {
    1 <= la <= 3 && 1 <= lb <= 3 && 6 + la + lb <= |bs| &&
    bs[..4] == MulOpen && AllDigits(bs[4..4 + la]) && bs[4 + la] == Comma &&
    AllDigits(bs[5 + la..5 + la + lb]) && bs[5 + la + lb] == Close
  }

  /** The product a well-formed `mul(a,b)` stands for. */
  function MulProduct(bs: seq<byte>, la: nat, lb: nat): nat
    requires MulShape(bs, la, lb)
  {
    DecimalValue(bs[4..4 + la]) * DecimalValue(bs[5 + la..5 + la + lb])
  }

  /** `try_parse_mul`. */
  function TryParseMul(bs: seq<byte>): (r: Option<(Command, nat)>)
    ensures r.Some? ==> r.value.1 <= |bs|
  {
    if StartsWith(bs, MulOpen) then
      match ParseNumber(bs[4..])
      case None => None
      case Some((a, la)) =>
        var next := 4 + la;
        if next >= |bs| || bs[next] != Comma then None
        else
          match ParseNumber(bs[next + 1..])
          case None => None
          case Some((b, lb)) =>
            var next2 := next + 1 + lb;
            if next2 >= |bs| || bs[next2] != Close then None
            else Some((Mul(a * b), next2 + 1))
    else None
  }

  /** `try_parse_mul` gives a command exactly when bs starts with a
      well-formed `mul(a,b)`, whose product it carries, consuming the whole
      instruction; so a four-digit operand is refused. */
  lemma TryParseMulMeaning(bs: seq<byte>)
    ensures TryParseMul(bs).Some? <==> exists la, lb :: MulShape(bs, la, lb)
    ensures forall la, lb :: MulShape(bs, la, lb) ==> TryParseMul(bs) == Some((Mul(MulProduct(bs, la, lb)), 6 + la + lb))
  {
    if StartsWith(bs, MulOpen) {
      match ParseNumber(bs[4..])
      case None =>
        MulNeedsDigits(bs);
      case Some((a, la)) =>
        var next := 4 + la;
        if next >= |bs| || bs[next] != Comma {
          MulNeedsComma(bs, la);
        } else {
          match ParseNumber(bs[next + 1..])
          case None =>
            MulNeedsSecondDigits(bs, la);
          case Some((b, lb)) =>
            var next2 := next + 1 + lb;
            if next2 >= |bs| || bs[next2] != Close {
              MulNeedsClose(bs, la, lb);
            } else {
              MulFound(bs, la, lb);
            }
        }
    } else {
      assert forall la, lb :: MulShape(bs, la, lb) ==> StartsWith(bs, MulOpen);
    }
  }

  /** In a well-formed instruction, each operand is the whole digit run. */
  lemma ShapeRuns(bs: seq<byte>, la: nat, lb: nat)
    requires MulShape(bs, la, lb)
    ensures DigitRun(bs[4..]) == la && DigitRun(bs[5 + la..]) == lb
  {
    assert bs[4..][..la] == bs[4..4 + la];
    assert bs[4..][la] == Comma;
    DigitRunExact(bs[4..], la);
    assert bs[5 + la..][..lb] == bs[5 + la..5 + la + lb];
    assert bs[5 + la..][lb] == Close;
    DigitRunExact(bs[5 + la..], lb);
  }

  lemma MulNeedsDigits(bs: seq<byte>)
    requires StartsWith(bs, MulOpen) && ParseNumber(bs[4..]).None?
    ensures forall la, lb :: !MulShape(bs, la, lb)
  {
    forall la, lb | MulShape(bs, la, lb) ensures false {
    }
  }

  lemma MulNeedsComma(bs: seq<byte>, la: nat)
    requires StartsWith(bs, MulOpen) && ParseNumber(bs[4..]).Some? && ParseNumber(bs[4..]).value.1 == la
    requires 4 + la >= |bs| || bs[4 + la] != Comma
    ensures forall la', lb :: !MulShape(bs, la', lb)
  {
    forall la', lb | MulShape(bs, la', lb) ensures false {
      ShapeRuns(bs, la', lb);
    }
  }

  lemma MulNeedsSecondDigits(bs: seq<byte>, la: nat)
    requires StartsWith(bs, MulOpen) && ParseNumber(bs[4..]).Some? && ParseNumber(bs[4..]).value.1 == la
    requires 4 + la < |bs| && ParseNumber(bs[5 + la..]).None?
    ensures forall la', lb :: !MulShape(bs, la', lb)
  {
    forall la', lb | MulShape(bs, la', lb) ensures false {
      ShapeRuns(bs, la', lb);
    }
  }

  lemma MulNeedsClose(bs: seq<byte>, la: nat, lb: nat)
    requires StartsWith(bs, MulOpen) && ParseNumber(bs[4..]).Some? && ParseNumber(bs[4..]).value.1 == la
    requires 4 + la < |bs| && bs[4 + la] == Comma
    requires ParseNumber(bs[5 + la..]).Some? && ParseNumber(bs[5 + la..]).value.1 == lb
    requires 5 + la + lb >= |bs| || bs[5 + la + lb] != Close
    ensures forall la', lb' :: !MulShape(bs, la', lb')
  {
    forall la', lb' | MulShape(bs, la', lb') ensures false {
      ShapeRuns(bs, la', lb');
    }
  }

  lemma MulFound(bs: seq<byte>, la: nat, lb: nat)
    requires StartsWith(bs, MulOpen) && ParseNumber(bs[4..]).Some? && ParseNumber(bs[4..]).value.1 == la
    requires 4 + la < |bs| && bs[4 + la] == Comma
    requires ParseNumber(bs[5 + la..]).Some? && ParseNumber(bs[5 + la..]).value.1 == lb
    requires 5 + la + lb < |bs| && bs[5 + la + lb] == Close
    ensures MulShape(bs, la, lb)
    ensures ParseNumber(bs[4..]).value.0 * ParseNumber(bs[5 + la..]).value.0 == MulProduct(bs, la, lb)
    ensures forall la', lb' :: MulShape(bs, la', lb') ==> la' == la && lb' == lb
  {
    assert bs[4..][..la] == bs[4..4 + la];
    assert bs[5 + la..][..lb] == bs[5 + la..5 + la + lb];
    forall la', lb' | MulShape(bs, la', lb') ensures la' == la && lb' == lb {
      ShapeRuns(bs, la', lb');
      ShapeRuns(bs, la, lb);
    }
  }

  /** `try_parse_command`: `do()` and `don't()` by their prefixes,
      otherwise a `mul` instruction. */
  function TryParseCommand(bs: seq<byte>): (r: Option<(Command, nat)>)
    ensures r.Some? ==> r.value.1 <= |bs|
  {
    if StartsWith(bs, DoCall) then Some((Do, 4))
    else if StartsWith(bs, DontCall) then Some((Dont, 7))
    else TryParseMul(bs)
  }

  /** The three kinds of command are mutually exclusive, so the order of
      the tests does not matter, and each consumes exactly its spelling. */
  lemma TryParseCommandMeaning(bs: seq<byte>)
    ensures (TryParseCommand(bs).Some? && TryParseCommand(bs).value.0 == Do) <==> StartsWith(bs, DoCall)
    ensures (TryParseCommand(bs).Some? && TryParseCommand(bs).value.0 == Dont) <==> StartsWith(bs, DontCall)
    ensures (TryParseCommand(bs).Some? && TryParseCommand(bs).value.0.Mul?) <==> exists la, lb :: MulShape(bs, la, lb)
    ensures TryParseCommand(bs).Some? && TryParseCommand(bs).value.0 == Do ==> TryParseCommand(bs).value.1 == |DoCall|
    ensures TryParseCommand(bs).Some? && TryParseCommand(bs).value.0 == Dont ==> TryParseCommand(bs).value.1 == |DontCall|
    ensures forall la, lb :: MulShape(bs, la, lb) ==> TryParseCommand(bs) == Some((Mul(MulProduct(bs, la, lb)), 6 + la + lb))
  {
    assert StartsWith(bs, DoCall) ==> bs[0] == 100 && bs[2] == 40 by {
      if StartsWith(bs, DoCall) { assert bs[..4][0] == bs[0] && bs[..4][2] == bs[2]; }
    }
    assert StartsWith(bs, DontCall) ==> bs[0] == 100 && bs[2] == 110 by {
      if StartsWith(bs, DontCall) { assert bs[..7][0] == bs[0] && bs[..7][2] == bs[2]; }
    }
    assert forall la, lb :: MulShape(bs, la, lb) ==> bs[0] == 109 by {
      forall la, lb | MulShape(bs, la, lb) ensures bs[0] == 109 { assert bs[..4][0] == bs[0]; }
    }
    TryParseMulMeaning(bs);
  }

  /** The command recognised at offset i, if any. */
  function CommandAt(bs: seq<byte>, i: nat): (r: Option<Command>)
    requires i < |bs|
    ensures r.Some? ==> bs[i] == 100 || bs[i] == 109
  {
    match TryParseCommand(bs[i..])
    case None => None
    case Some((c, _)) =>
      TryParseCommandMeaning(bs[i..]);
      assert c.Mul? ==> bs[i..][..4] == MulOpen;
      assert c == Do ==> bs[i..][..4] == DoCall;
      assert c == Dont ==> bs[i..][..7] == DontCall;
      Some(c)
  }

  /** The commands found at the offsets `0..bytes.len()`, in order. */
  function Commands(bs: seq<byte>): (r: seq<Option<Command>>)
    ensures |r| == |bs| && forall i :: 0 <= i < |bs| ==> r[i] == CommandAt(bs, i)
  {
    seq(|bs|, i requires 0 <= i < |bs| => CommandAt(bs, i))
  }

  /** What part one adds for one offset: the product of a `mul` found there. */
  function Value(c: Option<Command>): nat
  {
    match c
    case Some(Mul(p)) => p
    case _ => 0
  }

  /** A product is added exactly at a well-formed `mul(a,b)`, and it is a*b. */
  lemma ValueMeaning(bs: seq<byte>, i: nat)
    requires i < |bs|
    ensures Value(CommandAt(bs, i)) > 0 ==> exists la, lb :: MulShape(bs[i..], la, lb)
    ensures forall la, lb :: MulShape(bs[i..], la, lb) ==> Value(CommandAt(bs, i)) == MulProduct(bs[i..], la, lb)
  {
    TryParseCommandMeaning(bs[i..]);
  }

  /** The sum of the products among cmds: zero exactly when none of them
      adds anything. */
  function Total(cmds: seq<Option<Command>>): (r: nat)
    ensures r == 0 <==> forall i :: 0 <= i < |cmds| ==> Value(cmds[i]) == 0
  {
    if cmds == [] then 0
    else
      assert forall i :: 0 <= i < |cmds| - 1 ==> cmds[..|cmds| - 1][i] == cmds[i];
      Total(cmds[..|cmds| - 1]) + Value(cmds[|cmds| - 1])
  }

  /** `part1`: every `mul` at every offset, `do()` and `don't()` ignored;
      zero exactly when no offset starts a `mul` with a non-zero product. */
  function Part1(bs: seq<byte>): (r: nat)
    ensures r == 0 <==> forall i :: 0 <= i < |bs| ==> Value(CommandAt(bs, i)) == 0
  {
    Total(Commands(bs))
  }

  /** Whether `mul` is enabled after the fold of `part2` has seen cmds: the
      last switch decides, and it starts enabled. */
  function EnabledAfter(cmds: seq<Option<Command>>): bool
  {
    if cmds == [] then true
    else match cmds[|cmds| - 1]
      case Some(Do) => true
      case Some(Dont) => false
      case _ => EnabledAfter(cmds[..|cmds| - 1])
  }

  /** Enabled exactly when every `don't()` is followed by a `do()`. */
  lemma {:induction false} EnabledMeaning(cmds: seq<Option<Command>>)
    ensures EnabledAfter(cmds) <==>
      forall q :: 0 <= q < |cmds| && cmds[q] == Some(Dont) ==>
        exists q' :: q < q' < |cmds| && cmds[q'] == Some(Do)
  {
    if cmds != [] {
      var n := |cmds| - 1;
      var init := cmds[..n];
      EnabledMeaning(init);
      assert forall q :: 0 <= q < n ==> init[q] == cmds[q];
    }
  }

  /** The sum of the products among cmds that come while enabled: a part
      of the sum of all of them. */
  function EnabledTotal(cmds: seq<Option<Command>>): (r: nat)
    ensures r <= Total(cmds)
  {
    if cmds == [] then 0
    else
      var init := cmds[..|cmds| - 1];
      EnabledTotal(init) + if EnabledAfter(init) then Value(cmds[|cmds| - 1]) else 0
  }

  /** `part2`: the fold over offsets, updating the captured `enabled` flag. */
  method Part2(bs: seq<byte>) returns (sum: nat)
    ensures sum == EnabledTotal(Commands(bs))
  {
    ghost var cmds := Commands(bs);
    var enabled := true;
    sum := 0;
    for i := 0 to |bs|
      invariant enabled == EnabledAfter(cmds[..i]) && sum == EnabledTotal(cmds[..i])
    {
      assert cmds[..i + 1][..i] == cmds[..i];
      // the command of `try_parse_command(&bytes[i..])`
      var command := CommandAt(bs, i);
      match command {
        case Some(Mul(p)) =>
          if enabled {
            sum := sum + p;
          }
        case Some(Do) =>
          enabled := true;
        case Some(Dont) =>
          enabled := false;
        case None =>
      }
    }
    assert cmds[..|bs|] == cmds;
  }

  /** Without any `don't()`, both parts agree. */
  lemma {:induction false} NoDontAllEnabled(cmds: seq<Option<Command>>)
    requires forall q :: 0 <= q < |cmds| ==> cmds[q] != Some(Dont)
    ensures EnabledAfter(cmds) && EnabledTotal(cmds) == Total(cmds)
  {
    if cmds != [] {
      var init := cmds[..|cmds| - 1];
      assert forall q :: 0 <= q < |init| ==> init[q] == cmds[q];
      NoDontAllEnabled(init);
    }
  }

  /** Part two never exceeds part one, and equals it when the input holds
      no `don't()`. */
  lemma Part2WithinPart1(bs: seq<byte>)
    ensures EnabledTotal(Commands(bs)) <= Part1(bs)
    ensures (forall q :: 0 <= q < |bs| ==> CommandAt(bs, q) != Some(Dont)) ==> EnabledTotal(Commands(bs)) == Part1(bs)
  {
    if forall q :: 0 <= q < |bs| ==> CommandAt(bs, q) != Some(Dont) {
      NoDontAllEnabled(Commands(bs));
    }
  }

  /** The decimal digits of n, without leading zeros. */
  function DecimalBytes(n: nat): (r: seq<byte>)
    ensures 1 <= |r| && AllDigits(r) && DecimalValue(r) == n
    ensures n < 10 ==> |r| == 1
    ensures n < 100 ==> |r| <= 2
    ensures n < 1000 ==> |r| <= 3
  {
    if n < 10 then [(48 + n) as byte]
    else
      var r := DecimalBytes(n / 10) + [(48 + n % 10) as byte];
      assert r[..|r| - 1] == DecimalBytes(n / 10);
      r
  }

  /** The instruction `mul(a,b)` spelled out. */
  function Render(a: nat, b: nat): seq<byte>
  {
    MulOpen + DecimalBytes(a) + [Comma] + DecimalBytes(b) + [Close]
  }

  /** Parsing a spelled-out instruction gives back its product and length,
      whatever follows it. */
  lemma RenderParses(a: nat, b: nat, rest: seq<byte>)
    requires a < 1000 && b < 1000
    ensures TryParseCommand(Render(a, b) + rest) == Some((Mul(a * b), |Render(a, b)|))
  {
    var la, lb := |DecimalBytes(a)|, |DecimalBytes(b)|;
    RenderShape(a, b, rest);
    ShapeParses(Render(a, b) + rest, la, lb, a * b, |Render(a, b)|);
  }

  /** A spelled-out instruction has the well-formed shape, with a and b as
      its operands. */
  lemma RenderShape(a: nat, b: nat, rest: seq<byte>)
    requires a < 1000 && b < 1000
    ensures MulShape(Render(a, b) + rest, |DecimalBytes(a)|, |DecimalBytes(b)|)
    ensures MulProduct(Render(a, b) + rest, |DecimalBytes(a)|, |DecimalBytes(b)|) == a * b
    ensures |Render(a, b)| == 6 + |DecimalBytes(a)| + |DecimalBytes(b)|
  {
    var da, db := DecimalBytes(a), DecimalBytes(b);
    Layout(da, db, rest);
  }

  /** `mul(` da `,` db `)` followed by anything is well-formed, with the
      values of da and db as operands. */
  lemma Layout(da: seq<byte>, db: seq<byte>, rest: seq<byte>)
    requires 1 <= |da| <= 3 && 1 <= |db| <= 3 && AllDigits(da) && AllDigits(db)
    ensures MulShape(MulOpen + da + [Comma] + db + [Close] + rest, |da|, |db|)
    ensures MulProduct(MulOpen + da + [Comma] + db + [Close] + rest, |da|, |db|) == DecimalValue(da) * DecimalValue(db)
  {
    Slices(da, db, rest);
  }

  /** Where the parts of `mul(` da `,` db `)` rest lie. */
  lemma Slices(da: seq<byte>, db: seq<byte>, rest: seq<byte>)
    ensures var bs := MulOpen + da + [Comma] + db + [Close] + rest;
      |bs| == 6 + |da| + |db| + |rest| && bs[..4] == MulOpen && bs[4..4 + |da|] == da && bs[4 + |da|] == Comma &&
      bs[5 + |da|..5 + |da| + |db|] == db && bs[5 + |da| + |db|] == Close
  {
    var p1 := MulOpen + da;
    var p2 := p1 + [Comma];
    var p3 := p2 + db;
    var p4 := p3 + [Close];
    var bs := p4 + rest;
    assert bs[..|p4|] == p4;
    assert p4[..|p3|] == p3;
    assert p3[..|p2|] == p2;
    assert p3[|p2|..] == db;
    assert p2[..|p1|] == p1;
    assert p1[4..] == da;
    assert p1[..4] == MulOpen;
    assert bs[4..4 + |da|] == p1[4..];
    assert bs[5 + |da|..5 + |da| + |db|] == p3[|p2|..];
  }

  lemma ShapeParses(bs: seq<byte>, la: nat, lb: nat, p: nat, n: nat)
    requires MulShape(bs, la, lb) && p == MulProduct(bs, la, lb) && n == 6 + la + lb
    ensures TryParseCommand(bs) == Some((Mul(p), n))
  {
    TryParseCommandMeaning(bs);
  }

  /** Commands that add nothing after the first leave the first's value. */
  lemma {:induction false} TotalOfFirst(cmds: seq<Option<Command>>)
    requires cmds != [] && forall k :: 1 <= k < |cmds| ==> cmds[k].None?
    ensures Total(cmds) == Value(cmds[0])
  {
    if |cmds| > 1 {
      var init := cmds[..|cmds| - 1];
      assert forall k :: 1 <= k < |init| ==> init[k] == cmds[k];
      TotalOfFirst(init);
    }
  }

  /** A spelled-out instruction alone sums to its product in part one. */
  lemma RenderPart1(a: nat, b: nat)
    requires a < 1000 && b < 1000
    ensures Part1(Render(a, b)) == a * b
  {
    var bs := Render(a, b);
    RenderParses(a, b, []);
    assert bs + [] == bs;
    RenderLetters(a, b);
    TotalOfFirst(Commands(bs));
  }

  /** Only the first byte of a spelled-out instruction is `m` or `d`. */
  lemma RenderLetters(a: nat, b: nat)
    ensures forall i :: 1 <= i < |Render(a, b)| ==> Render(a, b)[i] != 100 && Render(a, b)[i] != 109
  {
    var da, db := DecimalBytes(a), DecimalBytes(b);
    var bs := Render(a, b);
    forall i | 1 <= i < |bs| ensures bs[i] != 100 && bs[i] != 109 {
      if 4 <= i < 4 + |da| {
        assert bs[i] == da[i - 4];
      } else if 4 + |da| < i < |bs| - 1 {
        assert bs[i] == db[i - 5 - |da|];
      }
    }
  }
}
