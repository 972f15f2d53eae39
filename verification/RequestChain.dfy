/** A request through the logger, the error store and the panic recovery. */
module RequestChain {
  import opened Common
  import opened ResponseWriter

  /** What a handler does to its writer; a flush goes through a response controller. */
  datatype Action = Header(code: int) | Body(text: string) | Flush

  /** A handler's run: what it does to its writer, and whether it then panics of its own accord. */
  datatype Handling = Handling(actions: seq<Action>, panics: bool)

  /** One action; also whether it panics. */
  function Act(levels: seq<Level>, s: Sent, action: Action): (seq<Level>, Sent, bool) {
    match action
    case Header(code) => StackHeader(levels, s, code)
    case Body(text) =>
      var (rest, t) := StackWrite(levels, s, text);
      (rest, t, false)
    case Flush => (levels, ServerFlush(s), false)
  }

  /** The actions of a handler, up to the first that panics. */
  function ActAll(levels: seq<Level>, s: Sent, actions: seq<Action>): (seq<Level>, Sent, bool) {
    if actions == [] then (levels, s, false) else
      var (before, t, panicked) := ActAll(levels, s, actions[..|actions| - 1]);
      if panicked then (before, t, true) else Act(before, t, actions[|actions| - 1])
  }

  lemma {:induction false} ActAllThen(levels: seq<Level>, s: Sent, actions: seq<Action>, action: Action)
    ensures var (before, t, panicked) := ActAll(levels, s, actions);
            ActAll(levels, s, actions + [action]) == if panicked then (before, t, true) else Act(before, t, action)
  {
    assert (actions + [action])[..|actions|] == actions;
  }

  /** Recovery answers a panic through the same writer. */
  function Recovered(levels: seq<Level>, s: Sent, errorBody: string): (seq<Level>, Sent) {
    var (touched, t, _) := StackHeader(levels, s, INTERNAL_SERVER_ERROR);
    StackWrite(touched, t, errorBody)
  }

  /** The two wrappers and the connection after a request. */
  function Handled(h: Handling, errorBody: string): (seq<Level>, Sent) {
    var (levels, s, panicked) := ActAll([UNTOUCHED, UNTOUCHED], NOTHING, h.actions);
    if panicked || h.panics then Recovered(levels, s, errorBody) else (levels, s)
  }

  /** A handler that does these things to its writer, until one of them panics. */
  method Handle(w: Writer, actions: seq<Action>) returns (panicked: bool)
    requires w.Valid()
    modifies w.Repr
    ensures w.Valid()
    ensures (w.Levels(), w.connection.sent, panicked) == ActAll(old(w.Levels()), old(w.connection.sent), actions)
  {
    hide StackHeader;
    hide StackWrite;
    hide ActAll;
    NothingDone(w.Levels(), w.connection.sent);
    panicked := false;
    var i := 0;
    while i < |actions| && !panicked
      invariant 0 <= i <= |actions| && w.Valid()
      invariant (w.Levels(), w.connection.sent, panicked) ==
                ActAll(old(w.Levels()), old(w.connection.sent), actions[..i])
    {
      assert actions[..i + 1] == actions[..i] + [actions[i]];
      ActAllThen(old(w.Levels()), old(w.connection.sent), actions[..i], actions[i]);
      match actions[i] {
        case Header(code) => panicked := w.WriteHeader(code);
        case Body(text) => w.Write(text);
        case Flush => w.Flush();
      }
      i := i + 1;
    }
    if panicked {
      StopsAtPanic(old(w.Levels()), old(w.connection.sent), actions, i);
    } else {
      assert actions[..i] == actions;
    }
  }

  lemma {:induction false} NothingDone(levels: seq<Level>, s: Sent)
    ensures ActAll(levels, s, []) == (levels, s, false)
  {
  }

  lemma {:induction false} StopsAtPanic(levels: seq<Level>, s: Sent, actions: seq<Action>, n: nat)
    requires n <= |actions| && ActAll(levels, s, actions[..n]).2
    ensures ActAll(levels, s, actions) == ActAll(levels, s, actions[..n])
    decreases |actions|
  {
    if n < |actions| {
      var front := actions[..|actions| - 1];
      assert front[..n] == actions[..n];
      StopsAtPanic(levels, s, front, n);
    } else {
      assert actions[..n] == actions;
    }
  }

  /** A request's handling by the three layers. Gives what is logged as its status, and the statuses persisted. */
  method Serve(connection: Connection, h: Handling, errorBody: string) returns (logged: int, persisted: seq<int>)
    requires connection.sent == NOTHING
    modifies connection
    ensures var (levels, sent) := Handled(h, errorBody);
            && connection.sent == sent && |levels| == 2 && logged == StatusOf(levels[1])
            && persisted == if StatusOf(levels[0]) < INTERNAL_SERVER_ERROR then [] else [StatusOf(levels[0])]
  {
    hide StackHeader;
    hide StackWrite;
    hide ActAll;
    var loggerWriter := new Writer(connection, null);
    var storeWriter := new Writer(connection, loggerWriter);
    assert storeWriter.Levels() == [UNTOUCHED, UNTOUCHED];
    var panicked := Handle(storeWriter, h.actions);
    if panicked || h.panics {
      var again := storeWriter.WriteHeader(INTERNAL_SERVER_ERROR);
      storeWriter.Write(errorBody);
    }
    var status := storeWriter.Status();
    persisted := if status < INTERNAL_SERVER_ERROR then [] else [status];
    assert storeWriter.Levels()[1] == loggerWriter.Levels()[0];
    logged := loggerWriter.Status();
  }

  // ---------------------------------------------------------------- what the client gets and what is reported

  /** The code of the first header handed to the wrappers, which a body without one implies. */
  function FirstCode(actions: seq<Action>): Option<int> {
    if actions == [] then None
    else
      match actions[0]
      case Header(code) => Some(code)
      case Body(_) => Some(OK)
      case Flush => FirstCode(actions[1..])
  }

  /** The first action goes past the wrappers, and settles the status as 200. */
  predicate StartsFlushed(actions: seq<Action>) { actions != [] && actions[0].Flush? }

  /** The first action is a header that the server's writer does not take. */
  predicate StartsBadly(actions: seq<Action>) { actions != [] && actions[0].Header? && !Known(actions[0].code) }

  /** The first action is a header that settles the status. */
  predicate StartsFinally(actions: seq<Action>) {
    actions != [] && !actions[0].Flush? && FirstCode(actions).Some? && Final(FirstCode(actions).value)
  }

  /** The actions that a handler gets to do: a bad first header ends it, later headers do not reach the server. */
  function Done(actions: seq<Action>): seq<Action> {
    if StartsBadly(actions) then actions[..1] else actions
  }

  /** Everything done to the outer writer, recovery included. */
  function AllDone(h: Handling, errorBody: string): seq<Action> {
    Done(h.actions) +
    if StartsBadly(h.actions) || h.panics then [Header(INTERNAL_SERVER_ERROR), Body(errorBody)] else []
  }

  function BodyOf(actions: seq<Action>): string {
    if actions == [] then "" else
      BodyOf(actions[..|actions| - 1]) + if actions[|actions| - 1].Body? then actions[|actions| - 1].text else ""
  }

  /** A body or a flush, which settle the status if no header has. */
  ghost predicate Settles(actions: seq<Action>) {
    exists i :: 0 <= i < |actions| && !actions[i].Header?
  }

  /** What the client gets of the bodies. */
  function ClientBody(actions: seq<Action>): string {
    if StartsFinally(actions) && Bodiless(FirstCode(actions).value) then "" else BodyOf(actions)
  }

  /** The status that the actions settle. */
  ghost function Settled(actions: seq<Action>): Option<int> {
    if StartsFinally(actions) then FirstCode(actions) else if Settles(actions) then Some(OK) else None
  }

  /** What wrappers and connection come to, told by the first action, the first header and the bodies alone. */
  ghost predicate Comes(levels: seq<Level>, s: Sent, actions: seq<Action>) {
    var first := FirstCode(actions);
    && levels == (if first.None? then [UNTOUCHED, UNTOUCHED] else [Level(first.value, true), Level(first.value, true)])
    && s.headerCalls == (if first.None? then 0 else 1) && s.body == ClientBody(actions)
    && s.status == Settled(actions)
  }

  lemma {:induction false} ComesTo(actions: seq<Action>)
    ensures var (levels, s, panicked) := ActAll([UNTOUCHED, UNTOUCHED], NOTHING, actions);
            Comes(levels, s, Done(actions)) && (panicked <==> StartsBadly(actions))
  {
    if actions != [] {
      hide Act;
      hide Comes;
      var n := |actions| - 1;
      var before := actions[..n];
      ComesTo(before);
      var (levels, s, panicked) := ActAll([UNTOUCHED, UNTOUCHED], NOTHING, before);
      assert before + [actions[n]] == actions;
      if n > 0 {
        assert before[0] == actions[0] && actions[..1] == before[..1];
      }
      if !panicked {
        ActComes(levels, s, before, actions[n]);
        assert before == [] ==> [actions[n]] == actions;
      }
    }
  }

  lemma {:induction false} FirstLonger(actions: seq<Action>, action: Action)
    ensures FirstCode(actions + [action]) ==
            if FirstCode(actions).Some? then FirstCode(actions) else FirstCode([action])
  {
    if actions == [] {
      assert actions + [action] == [action];
    } else {
      assert (actions + [action])[1..] == actions[1..] + [action];
      FirstLonger(actions[1..], action);
    }
  }

  lemma {:induction false} SettlesLonger(actions: seq<Action>, action: Action)
    ensures Settles(actions + [action]) <==> Settles(actions) || !action.Header?
  {
    var longer := actions + [action];
    if Settles(actions) {
      var i :| 0 <= i < |actions| && !actions[i].Header?;
      assert !longer[i].Header?;
    }
    if !action.Header? {
      assert !longer[|actions|].Header?;
    }
  }

  /** What the summaries of a longer run are. */
  lemma {:induction false} SummariesLonger(actions: seq<Action>, action: Action)
    ensures var longer := actions + [action];
            && FirstCode(longer) == (if FirstCode(actions).Some? then FirstCode(actions) else FirstCode([action]))
            && (Settles(longer) <==> Settles(actions) || !action.Header?)
            && BodyOf(longer) == BodyOf(actions) + (if action.Body? then action.text else "")
            && StartsFinally(longer) == StartsFinally(if actions == [] then [action] else actions)
  {
    hide FirstCode;
    hide Settles;
    FirstLonger(actions, action);
    SettlesLonger(actions, action);
    BodyLonger(actions, action);
    FinallyLonger(actions, action);
  }

  lemma {:induction false} BodyLonger(actions: seq<Action>, action: Action)
    ensures BodyOf(actions + [action]) == BodyOf(actions) + if action.Body? then action.text else ""
  {
    var longer := actions + [action];
    assert longer[..|longer| - 1] == actions && longer[|actions|] == action;
  }

  lemma {:induction false} FinallyLonger(actions: seq<Action>, action: Action)
    ensures StartsFinally(actions + [action]) == StartsFinally(if actions == [] then [action] else actions)
  {
    FirstLonger(actions, action);
    if actions == [] {
      assert actions + [action] == [action];
    } else {
      assert (actions + [action])[0] == actions[0];
    }
  }

  /** Without a header or body among them, actions are flushes. */
  lemma {:induction false} OnlyFlushes(actions: seq<Action>)
    requires FirstCode(actions).None?
    ensures forall i :: 0 <= i < |actions| ==> actions[i].Flush?
    ensures BodyOf(actions) == "" && (Settles(actions) <==> actions != [])
  {
    if actions != [] {
      OnlyFlushes(actions[1..]);
      assert actions == [actions[0]] + actions[1..];
      assert !actions[0].Header?;
      NoBodies(actions);
    }
  }

  lemma {:induction false} NoBodies(actions: seq<Action>)
    requires forall i :: 0 <= i < |actions| ==> actions[i].Flush?
    ensures BodyOf(actions) == ""
  {
    if actions != [] {
      NoBodies(actions[..|actions| - 1]);
    }
  }

  lemma {:induction false} ActComes(levels: seq<Level>, s: Sent, actions: seq<Action>, action: Action)
    requires Comes(levels, s, actions)
    ensures var (levels', s', panicked) := Act(levels, s, action);
            Comes(levels', s', actions + [action]) && (panicked <==> actions == [] && StartsBadly([action]))
  {
    if FirstCode(actions).None? && !action.Flush? {
      FirstComes(levels, s, actions, action);
    } else {
      LaterComes(levels, s, actions, action);
    }
  }

  /** A flush, or anything after the first header: the wrappers stay as they are. */
  lemma {:induction false} LaterComes(levels: seq<Level>, s: Sent, actions: seq<Action>, action: Action)
    requires Comes(levels, s, actions) && (FirstCode(actions).Some? || action.Flush?)
    ensures var (levels', s', panicked) := Act(levels, s, action); Comes(levels', s', actions + [action]) && !panicked
  {
    hide StackHeader;
    hide StackWrite;
    SummariesLonger(actions, action);
    match action {
      case Header(code) => TwoHeader(levels[0], levels[1], s, code);
      case Body(text) => TwoWrite(levels[0], levels[1], s, text);
      case Flush =>
    }
  }

  /** The first header or body, perhaps after flushes. */
  lemma {:induction false} FirstComes(levels: seq<Level>, s: Sent, actions: seq<Action>, action: Action)
    requires Comes(levels, s, actions) && FirstCode(actions).None? && !action.Flush?
    ensures var (levels', s', panicked) := Act(levels, s, action);
            Comes(levels', s', actions + [action]) && (panicked <==> actions == [] && StartsBadly([action]))
  {
    hide StackHeader;
    hide StackWrite;
    var code := if action.Header? then action.code else OK;
    assert FirstCode([action]) == Some(code);
    SummariesLonger(actions, action);
    OnlyFlushes(actions);
    TwoHeader(UNTOUCHED, UNTOUCHED, s, code);
    if action.Body? {
      WriteIsHeaderThenWrite(UNTOUCHED, UNTOUCHED, s, action.text);
      TwoWrite(Level(OK, true), Level(OK, true), ServerHeader(s, OK).0, action.text);
    }
  }

  lemma {:induction false} TwoHeader(a: Level, b: Level, s: Sent, code: int)
    ensures StackHeader([a, b], s, code) ==
            if a.wroteHeader then ([a, b], s, false)
            else if b.wroteHeader then ([Level(code, true), b], s, false)
            else ([Level(code, true), Level(code, true)], ServerHeader(s, code).0, ServerHeader(s, code).1)
  {
    var none: seq<Level> := [];
    assert [a, b][1..] == [b] && [b][1..] == none;
    assert StackHeader(none, s, code) == (none, ServerHeader(s, code).0, ServerHeader(s, code).1);
    assert [Level(code, true)] + none == [Level(code, true)];
    assert !b.wroteHeader ==>
             StackHeader([b], s, code) == ([Level(code, true)], ServerHeader(s, code).0, ServerHeader(s, code).1);
    assert [Level(code, true)] + [Level(code, true)] == [Level(code, true), Level(code, true)];
    assert [Level(code, true)] + [b] == [Level(code, true), b];
  }

  /** A body through two wrappers that have both sent a header. */
  lemma {:induction false} TwoWrite(a: Level, b: Level, s: Sent, body: string)
    requires a.wroteHeader && b.wroteHeader
    ensures StackWrite([a, b], s, body) == ([a, b], ServerWrite(s, body))
  {
    var none: seq<Level> := [];
    assert [a, b][1..] == [b] && [b][1..] == none && [b] + none == [b] && [a] + [b] == [a, b];
    assert StackWrite(none, s, body) == (none, ServerWrite(s, body));
    assert StackWrite([b], s, body) == ([b], ServerWrite(s, body));
  }

  /** A body sends a header first when the outer wrapper has sent none. */
  lemma {:induction false} WriteIsHeaderThenWrite(a: Level, b: Level, s: Sent, body: string)
    requires !a.wroteHeader && !b.wroteHeader
    ensures StackWrite([a, b], s, body) == StackWrite(StackHeader([a, b], s, OK).0, StackHeader([a, b], s, OK).1, body)
  {
    TwoHeader(a, b, s, OK);
  }

  lemma {:induction false} HandledComes(h: Handling, errorBody: string)
    ensures var (levels, s) := Handled(h, errorBody); Comes(levels, s, AllDone(h, errorBody))
  {
    hide Act;
    hide StackHeader;
    hide StackWrite;
    hide Comes;
    ComesTo(h.actions);
    var (levels, s, panicked) := ActAll([UNTOUCHED, UNTOUCHED], NOTHING, h.actions);
    if panicked || h.panics {
      var header := Header(INTERNAL_SERVER_ERROR);
      var (touched, t, _) := Act(levels, s, header);
      ActComes(levels, s, Done(h.actions), header);
      ActComes(touched, t, Done(h.actions) + [header], Body(errorBody));
      RecoveredActs(levels, s, errorBody);
      assert AllDone(h, errorBody) == Done(h.actions) + [header] + [Body(errorBody)];
    } else {
      assert AllDone(h, errorBody) == Done(h.actions);
    }
  }

  lemma {:induction false} RecoveredActs(levels: seq<Level>, s: Sent, errorBody: string)
    ensures var (touched, t, _) := Act(levels, s, Header(INTERNAL_SERVER_ERROR));
            var (levels', s', _) := Act(touched, t, Body(errorBody));
            Recovered(levels, s, errorBody) == (levels', s')
  {
  }

  /** The reported status, which both wrappers share, is the client's: nothing was done; or the first action settled it,
      and a flush was followed by no other status than 200. The code 0 reads as 200. */
  predicate Reported(actions: seq<Action>) {
    var first := FirstCode(actions);
    if StartsFlushed(actions) then first.None? || first.value == OK || first.value == 0
    else actions == [] || Final(first.value) || first.value == 0
  }

  lemma {:induction false} FirstUnlessFlushed(actions: seq<Action>)
    ensures actions != [] && !StartsFlushed(actions) ==> FirstCode(actions).Some?
  {
  }

  /** Both wrappers report the same status, and it is the one the client gets exactly when the first action settled it
      as reported; the connection is given at most one header, and the client gets every byte of the bodies in order
      unless the status comes without a body. */
  lemma {:induction false} StatusesAgree(h: Handling, errorBody: string)
    ensures var (levels, s) := Handled(h, errorBody);
            var actions := AllDone(h, errorBody);
            && |levels| == 2 && StatusOf(levels[0]) == StatusOf(levels[1])
            && (StatusOf(levels[0]) == ClientStatus(s) <==> Reported(actions))
            && s.headerCalls <= 1 && s.body == ClientBody(actions)
  {
    hide Handled;
    HandledComes(h, errorBody);
    FirstUnlessFlushed(AllDone(h, errorBody));
  }

  /** An error is stored exactly when the client gets a server error, unless the client's status had been settled
      otherwise: by a flush before a server error, or by a first code above 999, at which the server's writer panics.
      Then the client gets 200 and an error is stored all the same. A server error that the client gets is always
      stored, as that status. */
  lemma {:induction false} StoredExactly(h: Handling, errorBody: string)
    ensures var (levels, s) := Handled(h, errorBody);
            var actions := AllDone(h, errorBody);
            && |levels| == 2
            && ((StatusOf(levels[0]) >= INTERNAL_SERVER_ERROR <==> ClientStatus(s) >= INTERNAL_SERVER_ERROR) <==>
                FirstCode(actions).None?
                || FirstCode(actions).value < (if StartsFlushed(actions) then INTERNAL_SERVER_ERROR else 1000))
            && (ClientStatus(s) >= INTERNAL_SERVER_ERROR ==> StatusOf(levels[0]) == ClientStatus(s))
  {
    hide Handled;
    HandledComes(h, errorBody);
    FirstUnlessFlushed(AllDone(h, errorBody));
  }

  lemma {:induction false} PanicSummaries(actions: seq<Action>, errorBody: string)
    ensures var all := AllDone(Handling(actions, true), errorBody);
            && FirstCode(all) == (if FirstCode(actions).Some? then FirstCode(actions) else Some(INTERNAL_SERVER_ERROR))
            && BodyOf(all) == BodyOf(Done(actions)) + errorBody
            && all != [] && (actions != [] ==> all[0] == actions[0]) && (actions == [] ==> all[0].Header?)
  {
    var header := Header(INTERNAL_SERVER_ERROR);
    SummariesLonger(Done(actions), header);
    SummariesLonger(Done(actions) + [header], Body(errorBody));
    assert AllDone(Handling(actions, true), errorBody) == Done(actions) + [header] + [Body(errorBody)];
  }

  /** A panic reads as status 500 exactly when the handler had not started a response, or had started that one. */
  lemma {:induction false} PanicReads500(actions: seq<Action>, errorBody: string)
    ensures var (levels, s) := Handled(Handling(actions, true), errorBody);
            && (ClientStatus(s) == INTERNAL_SERVER_ERROR <==>
                actions == [] || (!StartsFlushed(actions) && FirstCode(actions) == Some(INTERNAL_SERVER_ERROR)))
            && s.body == (if StartsFinally(actions) && Bodiless(FirstCode(actions).value) then ""
                          else BodyOf(Done(actions)) + errorBody)
  {
    hide Handled;
    HandledComes(Handling(actions, true), errorBody);
    PanicSummaries(actions, errorBody);
    FirstUnlessFlushed(actions);
  }

  /** A handler that announces early hints and then fails: the client gets 200, while both wrappers report 103 and no
      error is stored. */
  lemma {:induction false} FailureAfterHintsIsLost(h: Handling, errorBody: string)
    requires h == Handling([Header(103), Header(503)], false)
    ensures var (levels, s) := Handled(h, errorBody);
            && ClientStatus(s) == OK && |levels| == 2
            && StatusOf(levels[0]) == StatusOf(levels[1]) == 103 < INTERNAL_SERVER_ERROR
  {
    HandledComes(h, errorBody);
  }

  /** A handler that flushes and then fails: the client gets 200, while both wrappers report 500 and an error is
      stored. */
  lemma {:induction false} FailureAfterFlushIsStored(h: Handling, errorBody: string)
    requires h == Handling([Flush, Header(500)], false)
    ensures var (levels, s) := Handled(h, errorBody);
            && ClientStatus(s) == OK && |levels| == 2
            && StatusOf(levels[0]) == StatusOf(levels[1]) == INTERNAL_SERVER_ERROR
  {
    HandledComes(h, errorBody);
    assert AllDone(h, errorBody) == h.actions && h.actions[1..] == [Header(500)];
    assert FirstCode([Header(500)]) == Some(500) == FirstCode(h.actions);
    assert Settles(h.actions) by {
      assert !h.actions[0].Header?;
    }
  }

  /** A handler that sets the status 1000: the client gets 200 with the error body, and an error is stored. */
  lemma {:induction false} OutOfRangeIsStored(h: Handling, errorBody: string)
    requires h == Handling([Header(1000)], false)
    ensures var (levels, s) := Handled(h, errorBody);
            && ClientStatus(s) == OK && |levels| == 2 && StatusOf(levels[0]) == 1000 >= INTERNAL_SERVER_ERROR
  {
    HandledComes(h, errorBody);
    var actions := AllDone(h, errorBody);
    assert h.actions[..1] == h.actions;
    assert actions == [Header(1000), Header(500), Body(errorBody)];
    assert FirstCode(actions) == Some(1000);
    assert Settles(actions) by {
      assert !actions[2].Header?;
    }
  }
}
