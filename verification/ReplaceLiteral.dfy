/** The updater's module-path rewriting: replace the leftmost occurrence of a path until none is left. */
module ReplaceLiteral {
  import opened Common
  import opened Loop

  predicate OccursAt(value: string, source: string, q: int) {
    0 <= q <= |value| - |source| && value[q..q + |source|] == source
  }

  ghost predicate Occurs(value: string, source: string) {
    exists q :: OccursAt(value, source, q)
  }

  /** awk's index: the first occurrence, counted from 1; 0 when there is none. */
  function Index(value: string, source: string): (position: nat) {
    IndexFrom(value, source, 0)
  }

  function IndexFrom(value: string, source: string, from: nat): (position: nat)
    ensures position == 0 || position + |source| <= |value| + 1
    decreases |value| - from
  {
    if OccursAt(value, source, from) then from + 1
    else if from < |value| then IndexFrom(value, source, from + 1)
    else 0
  }

  lemma {:induction false} IndexFromExact(value: string, source: string, from: nat)
    ensures var position := IndexFrom(value, source, from);
            && (position > 0 ==> from < position && OccursAt(value, source, position - 1))
            && (forall q :: from <= q && (position == 0 || q < position - 1) ==> !OccursAt(value, source, q))
    decreases |value| - from
  {
    if !OccursAt(value, source, from) && from < |value| {
      IndexFromExact(value, source, from + 1);
    }
  }

  lemma {:induction false} IndexExact(value: string, source: string)
    ensures var position := Index(value, source);
            && (position > 0 ==> OccursAt(value, source, position - 1))
            && (position > 0 <==> Occurs(value, source))
            && (forall q :: q < position - 1 ==> !OccursAt(value, source, q))
  {
    IndexFromExact(value, source, 0);
  }

  /** A position with an occurrence and none before it is what index returns. */
  lemma {:induction false} IndexIs(value: string, source: string, p: nat)
    requires OccursAt(value, source, p) && forall q :: q < p ==> !OccursAt(value, source, q)
    ensures Index(value, source) == p + 1
  {
    IndexExact(value, source);
  }

  function Before(value: string, source: string): string
    requires Index(value, source) > 0
  {
    value[..Index(value, source) - 1]
  }

  function Rest(value: string, source: string): string
    requires Index(value, source) > 0
  {
    value[Index(value, source) - 1 + |source|..]
  }

  /** One turn of the loop; None when nothing is left to replace. */
  function Turn(source: string, target: string): string -> Option<string> {
    (value: string) =>
      if Index(value, source) == 0 then None else Some(Before(value, source) + target + Rest(value, source))
  }

  /** The loop itself. It is called with non-empty paths; it ends on no more inputs than those on which it halts. */
  method Replace(value: string, source: string, target: string) returns (r: string)
    requires source != "" && Halts(Turn(source, target), value)
    ensures r == End(Turn(source, target), value) && !Occurs(r, source)
  {
    r := value;
    ghost var turn, end := Turn(source, target), End(Turn(source, target), value);
    ghost var left := TurnsLeft(turn, value);
    var position := Index(r, source);
    while position > 0
      invariant position == Index(r, source) && Run(turn, r, left) == Some(end)
      decreases left
    {
      var next := r[..position - 1] + target + r[position - 1 + |source|..];
      OneFewer(turn, r, next, left, end);
      r, left := next, left - 1;
      position := Index(r, source);
    }
    assert turn(r) == None;
    IndexExact(r, source);
  }

  // ---------------------------------------------------------------- paths that cannot overlap

  /** However source is laid across target, sharing at least a position or the gap of an empty target, they disagree
      somewhere: neither contains the other and no end of one starts the other. */
  ghost predicate Separated(source: string, target: string) {
    forall k :: -|source| < k < |target| ==> Disagree(source, target, k)
  }

  ghost predicate Disagree(source: string, target: string, k: int) {
    exists j :: 0 <= j < |source| && 0 <= k + j < |target| && source[j] != target[k + j]
  }

  lemma {:induction false} OccursIn(value: string, source: string, q: int, j: int)
    requires OccursAt(value, source, q) && 0 <= j < |source|
    ensures value[q + j] == source[j]
  {
    assert value[q..q + |source|][j] == value[q + j];
  }

  lemma {:induction false} OccursWhen(value: string, source: string, q: int)
    requires 0 <= q <= |value| - |source| && forall j :: 0 <= j < |source| ==> value[q + j] == source[j]
    ensures OccursAt(value, source, q)
  {
  }

  /** Every occurrence in left + target + right lies in left or in right. */
  ghost predicate OnlyOutside(left: string, target: string, right: string, source: string) {
    forall q :: OccursAt(left + target + right, source, q) ==> q + |source| <= |left| || |left| + |target| <= q
  }

  lemma {:induction false} DisagreeAt(source: string, target: string, left: string, right: string, k: int)
    requires Disagree(source, target, k)
    ensures !OccursAt(left + target + right, source, |left| + k)
  {
    var j :| 0 <= j < |source| && 0 <= k + j < |target| && source[j] != target[k + j];
    if OccursAt(left + target + right, source, |left| + k) {
      OccursIn(left + target + right, source, |left| + k, j);
    }
  }

  lemma {:induction false} SeparatedOutside(source: string, target: string, left: string, right: string)
    requires Separated(source, target)
    ensures OnlyOutside(left, target, right, source)
  {
    forall q | -|source| < q - |left| < |target| ensures !OccursAt(left + target + right, source, q) {
      assert Disagree(source, target, q - |left|);
      DisagreeAt(source, target, left, right, q - |left|);
    }
  }

  /** Being separated is exactly this: in no context can an occurrence of source touch an inserted target. */
  lemma {:induction false} SeparatedExactly(source: string, target: string)
    requires source != ""
    ensures Separated(source, target) <==> forall left, right :: OnlyOutside(left, target, right, source)
  {
    if Separated(source, target) {
      forall left, right ensures OnlyOutside(left, target, right, source) {
        SeparatedOutside(source, target, left, right);
      }
    } else {
      var k :| -|source| < k < |target| && !Disagree(source, target, k);
      var left, right := Context(source, target, k);
      assert OccursAt(left + target + right, source, |left| + k);
      assert !OnlyOutside(left, target, right, source);
    }
  }

  /** Text around target that completes the overlap to an occurrence of source. */
  lemma {:induction false} Context(source: string, target: string, k: int) returns (left: string, right: string)
    requires -|source| < k < |target| && !Disagree(source, target, k)
    ensures OccursAt(left + target + right, source, |left| + k)
  {
    left := if k < 0 then source[..-k] else "";
    var over := k + |source| - |target|;
    right := if over > 0 then source[|source| - over..] else "";
    if over > |source| {
      right := "";
    }
    var value := left + target + right;
    forall j | 0 <= j < |source| ensures value[|left| + k + j] == source[j] {
      if 0 <= k + j < |target| {
        assert source[j] == target[k + j];
      }
    }
    OccursWhen(value, source, |left| + k);
  }

  // ---------------------------------------------------------------- one pass

  /** One pass from left to right, never looking at text that was inserted. */
  function SinglePass(value: string, source: string, target: string): string
    requires source != ""
    decreases |value|
  {
    if Index(value, source) == 0 then value else
      Before(value, source) + target + SinglePass(Rest(value, source), source, target)
  }

  /** Text after which no occurrence can reach back into it. */
  ghost predicate Clean(done: string, source: string) {
    forall rest, q :: OccursAt(done + rest, source, q) ==> |done| <= q
  }

  lemma {:induction false} OccursAfter(done: string, rest: string, source: string, q: int)
    requires |done| <= q
    ensures OccursAt(done + rest, source, q) <==> OccursAt(rest, source, q - |done|)
  {
    if q + |source| <= |done| + |rest| {
      assert (done + rest)[q..q + |source|] == rest[q - |done|..q - |done| + |source|];
    }
  }

  lemma {:induction false} CleanIndex(done: string, value: string, source: string)
    requires Clean(done, source)
    ensures Index(done + value, source) == if Index(value, source) > 0 then |done| + Index(value, source) else 0
  {
    var whole := done + value;
    IndexExact(whole, source);
    IndexExact(value, source);
    if Index(value, source) > 0 {
      var p := Index(value, source) - 1;
      OccursAfter(done, value, source, |done| + p);
      forall q | q < |done| + p ensures !OccursAt(whole, source, q) {
        if q >= |done| {
          OccursAfter(done, value, source, q);
        }
      }
      IndexIs(whole, source, |done| + p);
    } else if Index(whole, source) > 0 {
      OccursAfter(done, value, source, Index(whole, source) - 1);
    }
  }

  lemma {:induction false} CleanParts(done: string, value: string, source: string)
    requires Clean(done, source)
    ensures Index(done + value, source) > 0 <==> Index(value, source) > 0
    ensures Index(value, source) > 0 ==> Before(done + value, source) == done + Before(value, source)
    ensures Index(value, source) > 0 ==> Rest(done + value, source) == Rest(value, source)
  {
    CleanIndex(done, value, source);
  }

  /** What precedes the first occurrence, with the target put after it, is clean. */
  lemma {:induction false} PrefixClean(done: string, value: string, source: string, target: string)
    requires source != "" && Clean(done, source) && Separated(source, target) && Index(value, source) > 0
    ensures Clean(done + Before(value, source) + target, source)
  {
    var before := Before(value, source);
    forall rest, q | OccursAt(done + before + target + rest, source, q) ensures |done + before + target| <= q {
      assert done + before + target + rest == done + (before + target + rest);
      OccursAfter(done, before + target + rest, source, q);
      SeparatedOutside(source, target, before, rest);
      assert before + (target + rest) == before + target + rest;
      if q - |done| + |source| <= |before| {
        NotBefore(value, source, target + rest, q - |done|);
      }
    }
  }

  /** Nothing occurs inside the text before the first occurrence, whatever follows it. */
  lemma {:induction false} NotBefore(value: string, source: string, after: string, q: int)
    requires source != "" && Index(value, source) > 0 && q + |source| <= |Before(value, source)|
    ensures !OccursAt(Before(value, source) + after, source, q)
  {
    IndexExact(value, source);
    if q >= 0 {
      assert (Before(value, source) + after)[q..q + |source|] == value[q..q + |source|];
      assert !OccursAt(value, source, q);
    }
  }

  /** One turn of the loop behind clean text. */
  lemma {:induction false} CleanTurn(done: string, value: string, source: string, target: string)
    requires Clean(done, source)
    ensures Turn(source, target)(done + value) ==
            if Index(value, source) == 0 then None
            else Some(done + Before(value, source) + target + Rest(value, source))
  {
    CleanParts(done, value, source);
  }

  lemma {:induction false} CleanPass(done: string, value: string, source: string, target: string)
    requires source != "" && Separated(source, target) && Clean(done, source)
    ensures Halts(Turn(source, target), done + value)
    ensures End(Turn(source, target), done + value) == done + SinglePass(value, source, target)
    decreases |value|
  {
    var turn := Turn(source, target);
    CleanTurn(done, value, source, target);
    if Index(value, source) == 0 {
      DoneHalts(turn, done + value);
    } else {
      TurnKeepsEnd(turn, done + value);
      PrefixClean(done, value, source, target);
      CleanPass(done + Before(value, source) + target, Rest(value, source), source, target);
      Associated(done, Before(value, source), target, SinglePass(Rest(value, source), source, target));
    }
  }

  lemma {:induction false} Associated(a: string, b: string, c: string, d: string)
    ensures a + b + c + d == a + (b + c + d)
  {
  }

  lemma {:induction false} NothingClean(source: string)
    ensures Clean("", source)
  {
  }

  /** For separated paths the loop ends and comes to the single pass, which leaves no occurrence. */
  lemma {:induction false} LoopIsSinglePass(value: string, source: string, target: string)
    requires source != "" && Separated(source, target)
    ensures Halts(Turn(source, target), value)
    ensures End(Turn(source, target), value) == SinglePass(value, source, target)
    ensures !Occurs(SinglePass(value, source, target), source)
  {
    NothingClean(source);
    CleanPass("", value, source, target);
    assert "" + value == value && "" + SinglePass(value, source, target) == SinglePass(value, source, target);
    var n := TurnsLeft(Turn(source, target), value);
    RunIsFinal(Turn(source, target), value, n);
    IndexExact(SinglePass(value, source, target), source);
  }

  // ---------------------------------------------------------------- what the pass exchanges

  /** The pieces with a text between each and the next. */
  function Between(pieces: seq<string>, text: string): string
    requires pieces != []
  {
    if |pieces| == 1 then pieces[0] else pieces[0] + text + Between(pieces[1..], text)
  }

  /** Cutting where the source occurs, from left to right, gives these pieces: behind each but the last the source
      occurs where the piece ends and not before, and it does not occur in the last. */
  ghost predicate CutAt(pieces: seq<string>, source: string) {
    && pieces != [] && !Occurs(pieces[|pieces| - 1], source)
    && forall i :: 0 <= i < |pieces| - 1 ==> NotBeforeEnd(pieces[i], source)
  }

  ghost predicate NotBeforeEnd(piece: string, source: string) {
    forall q :: 0 <= q < |piece| ==> !OccursAt(piece + source, source, q)
  }

  lemma {:induction false} FirstCut(piece: string, source: string, rest: string)
    requires source != "" && NotBeforeEnd(piece, source)
    ensures var value := piece + source + rest;
            Index(value, source) > 0 && Before(value, source) == piece && Rest(value, source) == rest
  {
    var value := piece + source + rest;
    assert value[|piece|..|piece| + |source|] == source;
    forall q | q < |piece| ensures !OccursAt(value, source, q) {
      SharedPrefix(piece + source, value, source, |piece| + |source|, q);
    }
    IndexIs(value, source, |piece|);
  }

  lemma {:induction false} FirstPiece(value: string, source: string)
    requires source != "" && Index(value, source) > 0
    ensures NotBeforeEnd(Before(value, source), source)
    ensures value == Before(value, source) + source + Rest(value, source)
  {
    IndexExact(value, source);
    var p := Index(value, source) - 1;
    var before := Before(value, source);
    assert value[p..p + |source|] == source;
    forall q | 0 <= q < p ensures !OccursAt(before + source, source, q) {
      SharedPrefix(before + source, value, source, p + |source|, q);
    }
  }

  /** Every text falls into such pieces. */
  lemma {:induction false} CutInto(value: string, source: string) returns (pieces: seq<string>)
    requires source != ""
    ensures CutAt(pieces, source) && Between(pieces, source) == value
    decreases |value|
  {
    hide Index;
    hide NotBeforeEnd;
    hide Occurs;
    IndexExact(value, source);
    if Index(value, source) == 0 {
      pieces := [value];
    } else {
      FirstPiece(value, source);
      var rest := CutInto(Rest(value, source), source);
      pieces := [Before(value, source)] + rest;
      assert pieces[1..] == rest && pieces[|pieces| - 1] == rest[|rest| - 1];
    }
  }

  /** The pass puts the target where the source stood between these pieces, and leaves the pieces as they are. */
  lemma {:induction false} PassExchanges(pieces: seq<string>, source: string, target: string)
    requires source != "" && CutAt(pieces, source)
    ensures SinglePass(Between(pieces, source), source, target) == Between(pieces, target)
  {
    if |pieces| == 1 {
      IndexExact(pieces[0], source);
    } else {
      FirstCut(pieces[0], source, Between(pieces[1..], source));
      forall i | 0 <= i < |pieces[1..]| - 1 ensures NotBeforeEnd(pieces[1..][i], source) {
        assert pieces[1..][i] == pieces[i + 1];
      }
      PassExchanges(pieces[1..], source, target);
    }
  }

  /** A turn of the loop exchanges the leftmost occurrence, wherever it stands. */
  lemma {:induction false} TurnExactly(value: string, source: string, target: string, q: nat)
    requires OccursAt(value, source, q) && forall n :: 0 <= n < q ==> !OccursAt(value, source, n)
    ensures Turn(source, target)(value) == Some(value[..q] + target + value[q + |source|..])
  {
    IndexIs(value, source, q);
  }

  // ---------------------------------------------------------------- rewritten copies

  /** A copy in which some of the occurrences have been rewritten already: those marked true, in order. */
  function PartlyRewritten(value: string, source: string, target: string, marks: seq<bool>): string
    requires source != ""
    decreases |value|
  {
    if Index(value, source) == 0 || marks == [] then value else
      Before(value, source) + (if marks[0] then target else source)
      + PartlyRewritten(Rest(value, source), source, target, marks[1..])
  }

  /** The text of a copy with this piece, and then each further one behind the text that its mark calls for. */
  function Marked(pieces: seq<string>, source: string, target: string, marks: seq<bool>): string
    requires pieces != []
  {
    var last := |pieces| - 1;
    if last == 0 then pieces[0] else
      Marked(pieces[..last], source, target, marks)
      + (if last <= |marks| && marks[last - 1] then target else source) + pieces[last]
  }

  lemma {:induction false} MarkedFromFront(pieces: seq<string>, source: string, target: string, marks: seq<bool>)
    requires |pieces| > 1
    ensures Marked(pieces, source, target, marks) ==
            pieces[0] + (if marks != [] && marks[0] then target else source)
            + Marked(pieces[1..], source, target, if marks == [] then [] else marks[1..])
  {
    var last := |pieces| - 1;
    if last > 1 {
      MarkedFromFront(pieces[..last], source, target, marks);
      assert pieces[..last][1..] == pieces[1..][..last - 1];
    }
  }

  /** A copy has the pieces of the text, with the target behind the pieces that are marked and the source behind the
      others. */
  lemma {:induction false} CopyExchanges(pieces: seq<string>, source: string, target: string, marks: seq<bool>)
    requires source != "" && CutAt(pieces, source)
    ensures PartlyRewritten(Between(pieces, source), source, target, marks) == Marked(pieces, source, target, marks)
  {
    if |pieces| == 1 {
      IndexExact(pieces[0], source);
    } else {
      FirstCut(pieces[0], source, Between(pieces[1..], source));
      MarkedFromFront(pieces, source, target, marks);
      forall i | 0 <= i < |pieces[1..]| - 1 ensures NotBeforeEnd(pieces[1..][i], source) {
        assert pieces[1..][i] == pieces[i + 1];
      }
      CopyExchanges(pieces[1..], source, target, if marks == [] then [] else marks[1..]);
      if marks == [] {
        assert PartlyRewritten(Between(pieces[1..], source), source, target, []) == Between(pieces[1..], source);
      }
    }
  }

  lemma {:induction false} PassAfterClean(done: string, value: string, source: string, target: string)
    requires source != "" && Clean(done, source)
    ensures SinglePass(done + value, source, target) == done + SinglePass(value, source, target)
  {
    CleanParts(done, value, source);
    if Index(value, source) > 0 {
      var tail := SinglePass(Rest(value, source), source, target);
      assert done + Before(value, source) + target + tail == done + (Before(value, source) + target + tail);
    }
  }

  lemma {:induction false} SharedPrefix(a: string, b: string, source: string, n: nat, q: int)
    requires n <= |a| && n <= |b| && a[..n] == b[..n] && q + |source| <= n
    ensures OccursAt(a, source, q) <==> OccursAt(b, source, q)
  {
    Truncated(a, source, n, q);
    Truncated(b, source, n, q);
  }

  lemma {:induction false} Truncated(a: string, source: string, n: nat, q: int)
    requires q + |source| <= n <= |a|
    ensures OccursAt(a, source, q) <==> OccursAt(a[..n], source, q)
  {
    if q >= 0 {
      assert a[..n][q..q + |source|] == a[q..q + |source|];
    }
  }

  /** Text after the first occurrence does not move it. */
  lemma {:induction false} FirstStaysFirst(value: string, source: string, rest: string)
    requires source != "" && Index(value, source) > 0
    ensures var other := Before(value, source) + source + rest;
            Index(other, source) > 0 && Before(other, source) == Before(value, source) && Rest(other, source) == rest
  {
    IndexExact(value, source);
    var p := Index(value, source) - 1;
    var before := Before(value, source);
    var other := before + source + rest;
    assert value[..p + |source|] == before + source;
    forall q | q < p ensures !OccursAt(other, source, q) {
      SharedPrefix(value, other, source, p + |source|, q);
    }
    assert other[p..p + |source|] == source;
    assert OccursAt(other, source, p);
    IndexIs(other, source, p);
  }

  /** A text and any partly or wholly rewritten copy of it come to the same text. */
  lemma {:induction false} CopiesAgree(value: string, source: string, target: string, marks: seq<bool>)
    requires source != "" && Separated(source, target)
    ensures SinglePass(PartlyRewritten(value, source, target, marks), source, target) ==
              SinglePass(value, source, target)
    decreases |value|
  {
    if Index(value, source) > 0 && marks != [] {
      var before := Before(value, source);
      var copied := PartlyRewritten(Rest(value, source), source, target, marks[1..]);
      CopiesAgree(Rest(value, source), source, target, marks[1..]);
      if marks[0] {
        NothingClean(source);
        PrefixClean("", value, source, target);
        assert "" + before + target == before + target;
        PassAfterClean(before + target, copied, source, target);
      } else {
        FirstStaysFirst(value, source, copied);
      }
    }
  }

  /** The comparison copy of a Go file: every line rewritten. */
  method NormalizeForComparison(lines: seq<string>, source: string, target: string) returns (output: seq<string>)
    requires source != "" && forall i :: 0 <= i < |lines| ==> Halts(Turn(source, target), lines[i])
    ensures |output| == |lines| && forall i :: 0 <= i < |lines| ==> output[i] == End(Turn(source, target), lines[i])
  {
    output := [];
    for i := 0 to |lines|
      invariant |output| == i && forall j :: 0 <= j < i ==> output[j] == End(Turn(source, target), lines[j])
    {
      var line := Replace(lines[i], source, target);
      output := output + [line];
    }
  }

  /** The updater's question whether a Go file already has the template's content: it does, for separated paths, when
      the file is the template's with any of the module paths rewritten; the comparison ends on every file. */
  method AlreadyApplied(current: seq<string>, original: seq<string>, source: string, target: string)
    returns (same: bool)
    requires source != "" && Separated(source, target)
    ensures same <==> |current| == |original| && forall i :: 0 <= i < |current| ==>
                        SinglePass(current[i], source, target) == SinglePass(original[i], source, target)
    ensures (exists marks: seq<seq<bool>> :: CopyOf(current, original, source, target, marks)) ==> same
  {
    forall value
      ensures Halts(Turn(source, target), value)
      ensures End(Turn(source, target), value) == SinglePass(value, source, target)
    {
      LoopIsSinglePass(value, source, target);
    }
    var a := NormalizeForComparison(current, source, target);
    var b := NormalizeForComparison(original, source, target);
    same := a == b;
    if same {
      assert forall i :: 0 <= i < |current| ==> a[i] == b[i];
    }
    forall marks: seq<seq<bool>> | CopyOf(current, original, source, target, marks) ensures same {
      forall i | 0 <= i < |current| ensures a[i] == b[i] {
        CopiesAgree(original[i], source, target, marks[i]);
      }
    }
  }

  ghost predicate CopyOf(current: seq<string>, original: seq<string>, source: string, target: string,
                         marks: seq<seq<bool>>)
    requires source != ""
  {
    |current| == |original| == |marks| &&
    forall i :: 0 <= i < |current| ==> current[i] == PartlyRewritten(original[i], source, target, marks[i])
  }
}
