/** A loop that is left when a turn finds nothing to do, and what it leaves. */
module Loop {
  import opened Common

  /** What is left when the loop ends within n turns; None when it does not. */
  function Run<T>(turn: T -> Option<T>, value: T, n: nat): Option<T> {
    match turn(value)
    case None => Some(value)
    case Some(next) => if n == 0 then None else Run(turn, next, n - 1)
  }

  /** The loop ends. */
  ghost predicate Halts<T(!new)>(turn: T -> Option<T>, value: T) {
    exists n: nat :: Run(turn, value, n).Some?
  }

  /** What the loop leaves, if it ends. */
  ghost function End<T(!new)>(turn: T -> Option<T>, value: T): T
    requires Halts(turn, value)
  {
    var n: nat :| Run(turn, value, n).Some?;
    Run(turn, value, n).value
  }

  lemma {:induction false} RunStays<T>(turn: T -> Option<T>, value: T, n: nat, m: nat)
    requires n <= m && Run(turn, value, n).Some?
    ensures Run(turn, value, m) == Run(turn, value, n)
  {
    if turn(value).Some? {
      RunStays(turn, turn(value).value, n - 1, m - 1);
    }
  }

  lemma {:induction false} RunIsFinal<T>(turn: T -> Option<T>, value: T, n: nat)
    requires Run(turn, value, n).Some?
    ensures turn(Run(turn, value, n).value) == None
  {
    if turn(value).Some? {
      RunIsFinal(turn, turn(value).value, n - 1);
    }
  }

  /** However many turns it is given, what is left is the same, and another turn would do nothing. */
  lemma {:induction false} EndIs<T(!new)>(turn: T -> Option<T>, value: T, n: nat)
    requires Run(turn, value, n).Some?
    ensures Halts(turn, value) && Run(turn, value, n) == Some(End(turn, value)) && turn(End(turn, value)) == None
  {
    var m: nat :| Run(turn, value, m).Some? && End(turn, value) == Run(turn, value, m).value;
    if n <= m {
      RunStays(turn, value, n, m);
    } else {
      RunStays(turn, value, m, n);
    }
    RunIsFinal(turn, value, n);
  }

  /** One turn changes neither whether the loop ends nor what it leaves. */
  lemma {:induction false} TurnKeepsEnd<T(!new)>(turn: T -> Option<T>, value: T)
    requires turn(value).Some?
    ensures Halts(turn, value) <==> Halts(turn, turn(value).value)
    ensures Halts(turn, value) ==> End(turn, value) == End(turn, turn(value).value)
  {
    var next := turn(value).value;
    if Halts(turn, value) {
      var n: nat :| Run(turn, value, n).Some?;
      EndIs(turn, value, n);
      EndIs(turn, next, n - 1);
    }
    if Halts(turn, next) {
      var n: nat :| Run(turn, next, n).Some?;
      assert Run(turn, value, n + 1) == Run(turn, next, n);
    }
  }

  /** A property that every turn keeps, and that leaves something to do, keeps the loop from ending. */
  lemma {:induction false} NeverEnds<T(!new)>(turn: T -> Option<T>, stuck: T -> bool, value: T)
    requires forall v :: stuck(v) ==> turn(v).Some? && stuck(turn(v).value)
    requires stuck(value)
    ensures !Halts(turn, value)
  {
    forall n: nat ensures Run(turn, value, n) == None {
      NeverWithin(turn, stuck, value, n);
    }
  }

  lemma {:induction false} NeverWithin<T(!new)>(turn: T -> Option<T>, stuck: T -> bool, value: T, n: nat)
    requires forall v :: stuck(v) ==> turn(v).Some? && stuck(turn(v).value)
    requires stuck(value)
    ensures Run(turn, value, n) == None
  {
    if n > 0 {
      NeverWithin(turn, stuck, turn(value).value, n - 1);
    }
  }

  lemma {:induction false} DoneHalts<T(!new)>(turn: T -> Option<T>, value: T)
    requires turn(value).None?
    ensures Halts(turn, value) && End(turn, value) == value
  {
    assert Run(turn, value, 0).Some?;
    EndIs(turn, value, 0);
  }

  lemma {:induction false} OneFewer<T>(turn: T -> Option<T>, value: T, next: T, left: nat, end: T)
    requires turn(value) == Some(next) && Run(turn, value, left) == Some(end)
    ensures left > 0 && Run(turn, next, left - 1) == Some(end)
  {
  }

  /** How many turns are left. */
  lemma {:induction false} TurnsLeft<T(!new)>(turn: T -> Option<T>, value: T) returns (n: nat)
    requires Halts(turn, value)
    ensures Run(turn, value, n) == Some(End(turn, value))
  {
    n :| Run(turn, value, n).Some?;
    EndIs(turn, value, n);
  }
}
