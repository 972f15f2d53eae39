/** For which paths the module-path rewriting ends on every text. */
module RewriteTermination {
  import opened Common
  import opened Loop
  import opened ReplaceLiteral

  // ---------------------------------------------------------------- a target that contains the source

  lemma {:induction false} ContainingKeeps(value: string, source: string, target: string)
    requires Occurs(target, source) && Occurs(value, source)
    ensures Turn(source, target)(value).Some? && Occurs(Turn(source, target)(value).value, source)
  {
    IndexExact(value, source);
    var before, rest := Before(value, source), Rest(value, source);
    var q :| OccursAt(target, source, q);
    assert (before + target + rest)[|before| + q..|before| + q + |source|] == target[q..q + |source|];
    assert OccursAt(before + target + rest, source, |before| + q);
  }

  /** When target contains source, equal paths included, the loop ends only on text without an occurrence. The patch
      rewriting is skipped for equal paths; the comparison copy is not. */
  lemma {:induction false} ContainingDiverges(value: string, source: string, target: string)
    requires Occurs(target, source)
    ensures Halts(Turn(source, target), value) <==> !Occurs(value, source)
  {
    var turn := Turn(source, target);
    if Occurs(value, source) {
      forall v | Occurs(v, source) ensures turn(v).Some? && Occurs(turn(v).value, source) {
        ContainingKeeps(v, source, target);
      }
      NeverEnds(turn, v => Occurs(v, source), value);
    } else {
      IndexExact(value, source);
      DoneHalts(turn, value);
    }
  }

  lemma {:induction false} EqualPathsDiverge(value: string, source: string)
    ensures Halts(Turn(source, source), value) <==> !Occurs(value, source)
    ensures !Halts(Turn(source, source), source)
  {
    assert OccursAt(source, source, 0);
    ContainingDiverges(value, source, source);
    ContainingDiverges(source, source, source);
  }

  /** A shorter target always ends the loop, overlaps or not. */
  lemma {:induction false} ShorterHalts(value: string, source: string, target: string)
    requires |target| < |source|
    ensures Halts(Turn(source, target), value)
    decreases |value|
  {
    var turn := Turn(source, target);
    if turn(value).None? {
      DoneHalts(turn, value);
    } else {
      TurnKeepsEnd(turn, value);
      ShorterHalts(turn(value).value, source, target);
    }
  }

  // ---------------------------------------------------------------- a target as long as the source

  const BASE: nat := 0x110000

  function Power(n: nat): (p: nat)
    ensures p > 0
  {
    if n == 0 then 1 else BASE * Power(n - 1)
  }

  /** The text read as a number, most significant character first. */
  function Number(value: string): nat {
    if value == "" then 0 else Number(value[..|value| - 1]) * BASE + value[|value| - 1] as int
  }

  lemma {:induction false} NumberBound(value: string)
    ensures Number(value) < Power(|value|)
  {
    if value != "" {
      NumberBound(value[..|value| - 1]);
    }
  }

  lemma {:induction false} NumberDistinguishes(a: string, b: string)
    requires |a| == |b| && Number(a) == Number(b)
    ensures a == b
  {
    if a != "" {
      var n := |a| - 1;
      NumberDistinguishes(a[..n], b[..n]);
      assert a == a[..n] + [a[n]] && b == b[..n] + [b[n]];
    }
  }

  lemma {:induction false} NumberJoined(a: string, b: string)
    ensures Number(a + b) == Number(a) * Power(|b|) + Number(b)
  {
    if b == "" {
      assert a + b == a;
    } else {
      var n := |b| - 1;
      NumberJoined(a, b[..n]);
      assert (a + b)[..|a + b| - 1] == a + b[..n];
      Distribute(Number(a), Power(n), Number(b[..n]));
    }
  }

  lemma {:induction false} Distribute(x: int, p: int, y: int)
    ensures (x * p + y) * BASE == x * (BASE * p) + y * BASE
  {
  }

  /** The number of a text moves in the direction of the piece that is exchanged in it. */
  lemma {:induction false} NumberMoves(before: string, source: string, target: string, rest: string)
    requires |target| == |source|
    ensures Number(target) < Number(source) ==> Number(before + target + rest) < Number(before + source + rest)
    ensures Number(target) > Number(source) ==> Number(before + target + rest) > Number(before + source + rest)
  {
    hide Number;
    hide Power;
    NumberJoined(before, source);
    NumberJoined(before, target);
    NumberJoined(before + source, rest);
    NumberJoined(before + target, rest);
    Scaled(Number(before + source), Number(before + target), Power(|rest|));
  }

  /** A turn moves the text's number in the direction that target lies from source. */
  lemma {:induction false} TurnMoves(value: string, source: string, target: string)
    requires |target| == |source| && Turn(source, target)(value).Some?
    ensures var next := Turn(source, target)(value).value;
            && |next| == |value|
            && (Number(target) < Number(source) ==> Number(next) < Number(value))
            && (Number(target) > Number(source) ==> Number(next) > Number(value))
  {
    hide Number;
    hide Index;
    IndexExact(value, source);
    assert value == Before(value, source) + source + Rest(value, source);
    NumberMoves(Before(value, source), source, target, Rest(value, source));
  }

  lemma {:induction false} Scaled(x: int, y: int, p: nat)
    requires p > 0
    ensures x < y ==> x * p < y * p
    ensures y < x ==> y * p < x * p
  {
    assert y * p - x * p == (y - x) * p;
    PositiveProduct(y - x, p);
  }

  lemma {:induction false} PositiveProduct(d: int, p: nat)
    requires p > 0
    ensures d > 0 ==> d * p > 0
    ensures d < 0 ==> d * p < 0
  {
  }

  lemma {:induction false} SameLengthHalts(value: string, source: string, target: string)
    requires |target| == |source| && target != source
    ensures Halts(Turn(source, target), value)
    decreases if Number(target) < Number(source) then Number(value) else Power(|value|) - Number(value)
  {
    var turn := Turn(source, target);
    if turn(value).None? {
      DoneHalts(turn, value);
    } else {
      if Number(target) == Number(source) {
        NumberDistinguishes(target, source);
      }
      TurnKeepsEnd(turn, value);
      TurnMoves(value, source, target);
      NumberBound(value);
      NumberBound(turn(value).value);
      SameLengthHalts(turn(value).value, source, target);
    }
  }

  /** For a target that is no longer than the source the loop ends on every text exactly when the two differ; for equal
      paths it ends exactly on the texts without an occurrence. */
  lemma {:induction false} NoLongerHaltsExactly(value: string, source: string, target: string)
    requires |target| <= |source|
    ensures Halts(Turn(source, target), value) <==> target != source || !Occurs(value, source)
  {
    if target == source {
      EqualPathsDiverge(value, source);
    } else if |target| < |source| {
      ShorterHalts(value, source, target);
    } else {
      SameLengthHalts(value, source, target);
    }
  }

  // ---------------------------------------------------------------- a longer target that only shares a border

  lemma {:induction false} TurnAt(left: string, right: string, source: string, target: string)
    requires forall q :: q < |left| ==> !OccursAt(left + source + right, source, q)
    ensures Turn(source, target)(left + source + right) == Some(left + target + right)
  {
    var value := left + source + right;
    assert value[|left|..|left| + |source|] == source;
    IndexIs(value, source, |left|);
    assert Before(value, source) == left && Rest(value, source) == right;
  }

  ghost predicate AllB(s: string) {
    forall i :: 0 <= i < |s| ==> s[i] == 'b'
  }

  /** Nothing occurs among letters that source does not start with. */
  lemma {:induction false} NotAmong(left: string, right: string, source: string, q: int)
    requires source != "" && q < |left| && (0 <= q ==> left[q] != source[0])
    ensures !OccursAt(left + right, source, q)
  {
    if OccursAt(left + right, source, q) {
      OccursIn(left + right, source, q, 0);
    }
  }

  /** The texts that the loop passes through: any b's, then "aab" or "abbaa", then anything. */
  ghost predicate Growing(value: string) {
    exists bs, rest :: AllB(bs) && (value == bs + "aab" + rest || value == bs + "abbaa" + rest)
  }

  lemma {:induction false} FirstTurn(bs: string, rest: string, source: string, target: string)
    requires AllB(bs) && source == "ab" && target == "bbaa"
    ensures Turn(source, target)(bs + "aab" + rest) == Some(bs + "abbaa" + rest)
  {
    var value := bs + "a" + source + rest;
    assert bs + "aab" + rest == value;
    forall q | q < |bs + "a"| ensures !OccursAt(value, source, q) {
      if q < |bs| {
        assert value == bs + ("a" + source + rest);
        NotAmong(bs, "a" + source + rest, source, q);
      } else if OccursAt(value, source, q) {
        OccursIn(value, source, q, 1);
      }
    }
    TurnAt(bs + "a", rest, source, target);
    assert bs + "a" + target + rest == bs + "abbaa" + rest;
  }

  lemma {:induction false} SecondTurn(bs: string, rest: string, source: string, target: string)
    requires AllB(bs) && source == "ab" && target == "bbaa"
    ensures Turn(source, target)(bs + "abbaa" + rest) == Some((bs + "bb") + "aab" + ("aa" + rest))
  {
    var value := bs + source + ("baa" + rest);
    assert bs + "abbaa" + rest == value;
    forall q | q < |bs| ensures !OccursAt(value, source, q) {
      assert value == bs + (source + ("baa" + rest));
      NotAmong(bs, source + ("baa" + rest), source, q);
    }
    TurnAt(bs, "baa" + rest, source, target);
    assert bs + target + ("baa" + rest) == (bs + "bb") + "aab" + ("aa" + rest);
  }

  lemma {:induction false} GrowingStays(value: string, source: string, target: string)
    requires Growing(value) && source == "ab" && target == "bbaa"
    ensures Turn(source, target)(value).Some? && Growing(Turn(source, target)(value).value)
  {
    hide Turn;
    var bs, rest :| AllB(bs) && (value == bs + "aab" + rest || value == bs + "abbaa" + rest);
    if value == bs + "aab" + rest {
      FirstTurn(bs, rest, source, target);
    } else {
      SecondTurn(bs, rest, source, target);
      assert AllB(bs + "bb");
    }
  }

  /** Containment is not all that matters: "bbaa" does not contain "ab" but ends in its first letter, and rewriting
      "aab" with these two never ends. */
  lemma {:induction false} BorderDiverges(value: string, source: string, target: string)
    requires value == "aab" && source == "ab" && target == "bbaa"
    ensures !Occurs(target, source) && !Halts(Turn(source, target), value)
  {
    forall q ensures !OccursAt(target, source, q) {
      if OccursAt(target, source, q) {
        OccursIn(target, source, q, 0);
        OccursIn(target, source, q, 1);
      }
    }
    assert AllB("") && value == "" + "aab" + "";
    var turn := Turn(source, target);
    forall v | Growing(v) ensures turn(v).Some? && Growing(turn(v).value) {
      GrowingStays(v, source, target);
    }
    NeverEnds(turn, v => Growing(v), value);
  }
}
