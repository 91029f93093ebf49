/**
 The non-reentrant debug writer: any number of callers, interrupt handlers among them, with their atomic
 operations interleaved in every possible way.
 */
module DebugWriter {

  type Caller = nat
  type Message = seq<char>

  /** Where a caller is. `Entered` remembers the recursion depth it saw, `Printing` how many bytes are out. */
  datatype Stage =
    | Outside
    | Entered(seen: int, msg: Message)
    | Refused
    | Printing(msg: Message, sent: nat)
    | Released

  /** `output` is what the console received. `done` are the messages printed to the end, in order. */
  datatype Sys = Sys(depth: int, printing: nat, callers: map<Caller, Stage>, output: Message, done: seq<Message>)

  datatype Action =
    | Enter(c: Caller, msg: Message)
    | Drop(c: Caller)
    | Acquire(c: Caller)
    | Put(c: Caller)
    | Release(c: Caller)
    | Leave(c: Caller)

  ghost predicate Does(s: Sys, a: Action, s': Sys)
  {
    && a.c in s.callers
    && var now := s.callers[a.c];
    match a
    case Enter(c, msg) =>
      now.Outside? && s' == s.(depth := s.depth + 1, callers := s.callers[c := Entered(s.depth, msg)])
    case Drop(c) =>
      && ((now.Entered? && now.seen > 0) || now.Refused?)
      && s' == s.(depth := s.depth - 1, callers := s.callers[c := Outside])
    case Acquire(c) =>
      && now.Entered? && now.seen <= 0
      && s' == if s.printing == 0
               then s.(printing := 1, callers := s.callers[c := Printing(now.msg, 0)])
               else s.(callers := s.callers[c := Refused])
    case Put(c) =>
      && now.Printing? && now.sent < |now.msg|
      && s' == s.(output := s.output + [now.msg[now.sent]], callers := s.callers[c := Printing(now.msg, now.sent + 1)])
    case Release(c) =>
      && now.Printing? && now.sent == |now.msg|
      && s' == s.(printing := 0, done := s.done + [now.msg], callers := s.callers[c := Released])
    case Leave(c) =>
      now.Released? && s' == s.(depth := s.depth - 1, callers := s.callers[c := Outside])
  }

  // ----- the invariant

  function Inside(callers: map<Caller, Stage>): set<Caller>
  {
    set c | c in callers && !callers[c].Outside?
  }

  /** The caller went in when nobody else was inside. */
  ghost predicate First(s: Sys, c: Caller)
  {
    c in s.callers &&
    match s.callers[c]
    case Outside => false
    case Entered(seen, _) => seen <= 0
    case Refused => true
    case Printing(_, _) => true
    case Released => true
  }

  ghost predicate IsPrinting(s: Sys, c: Caller)
  {
    c in s.callers && s.callers[c].Printing?
  }

  ghost predicate CallerOk(s: Sys, c: Caller)
    requires c in s.callers
  {
    && !s.callers[c].Refused?
    && (s.callers[c].Printing? ==> s.callers[c].sent <= |s.callers[c].msg|)
  }

  function Flat(messages: seq<Message>): Message
  {
    if messages == [] then [] else Flat(messages[..|messages| - 1]) + messages[|messages| - 1]
  }

  /** The output so far: whole messages, and what is out of the one being printed. */
  ghost predicate Whole(s: Sys)
  {
    && ((forall c :: !IsPrinting(s, c)) ==> s.output == Flat(s.done))
    && (forall c :: IsPrinting(s, c) ==>
          s.callers[c].sent <= |s.callers[c].msg| && s.output == Flat(s.done) + s.callers[c].msg[..s.callers[c].sent])
  }

  ghost predicate Inv(s: Sys)
  {
    && s.depth == |Inside(s.callers)|
    && (forall c, d :: First(s, c) && First(s, d) ==> c == d)
    && (forall c :: c in s.callers ==> CallerOk(s, c))
    && (s.printing == 0 || s.printing == 1)
    && (s.printing == 1 <==> exists c :: IsPrinting(s, c))
    && Whole(s)
  }

  lemma CountMove(callers: map<Caller, Stage>, c: Caller, stage: Stage)
    requires c in callers
    ensures |Inside(callers[c := stage])| ==
            |Inside(callers)| - (if callers[c].Outside? then 0 else 1) + (if stage.Outside? then 0 else 1)
  {
    var rest := Inside(callers) - {c};
    assert Inside(callers) == if callers[c].Outside? then rest else rest + {c};
    assert Inside(callers[c := stage]) == if stage.Outside? then rest else rest + {c};
  }

  lemma StepKeepsDepth(s: Sys, a: Action, s': Sys)
    requires Inv(s) && Does(s, a, s')
    ensures s'.depth == |Inside(s'.callers)|
  {
    hide Whole, First, CallerOk;
    CountMove(s.callers, a.c, s'.callers[a.c]);
  }

  lemma StepKeepsFirst(s: Sys, a: Action, s': Sys)
    requires Inv(s) && Does(s, a, s')
    ensures forall c, d :: First(s', c) && First(s', d) ==> c == d
    ensures forall c :: c in s'.callers ==> CallerOk(s', c)
  {
    hide Whole;
    assert CallerOk(s, a.c);
    if a.Acquire? { AcquireSucceeds(s, a.c); }
    forall c, d | First(s', c) && First(s', d) ensures c == d {
      if a.Enter? && s.depth <= 0 {
        assert Inside(s.callers) == {};
        assert c != a.c ==> c !in Inside(s.callers);
        assert d != a.c ==> d !in Inside(s.callers);
      } else {
        assert First(s, c) && First(s, d);
      }
    }
    forall c | c in s'.callers ensures CallerOk(s', c) {
      assert CallerOk(s, c);
    }
  }

  lemma StepKeepsFlag(s: Sys, a: Action, s': Sys)
    requires Inv(s) && Does(s, a, s')
    ensures s'.printing == 0 || s'.printing == 1
    ensures s'.printing == 1 <==> exists c :: IsPrinting(s', c)
  {
    hide Whole, CallerOk;
    if a.Acquire? {
      AcquireSucceeds(s, a.c);
      assert IsPrinting(s', a.c);
    } else if a.Release? {
      assert First(s, a.c);
      forall c ensures !IsPrinting(s', c) {
        assert IsPrinting(s, c) ==> First(s, c);
      }
    } else {
      forall c ensures IsPrinting(s', c) <==> IsPrinting(s, c) {}
    }
  }

  lemma StepKeepsWhole(s: Sys, a: Action, s': Sys)
    requires Inv(s) && Does(s, a, s')
    ensures Whole(s')
  {
    hide Flat;
    forall c ensures IsPrinting(s, c) ==> First(s, c) {}
    match a
    case Acquire(c) => AcquireSucceeds(s, c);
    case Put(c) => PutKeepsWhole(s, c, s');
    case Release(c) =>
      var msg := s.callers[c].msg;
      assert IsPrinting(s, c);
      assert msg[..|msg|] == msg;
      FlatSnoc(s.done, msg);
      StepKeepsFlag(s, a, s');
    case _ =>
      forall c ensures IsPrinting(s', c) <==> IsPrinting(s, c) {}
  }

  lemma PutKeepsWhole(s: Sys, c: Caller, s': Sys)
    requires Inv(s) && Does(s, Put(c), s')
    ensures Whole(s')
  {
    hide Flat;
    var now := s.callers[c];
    assert IsPrinting(s, c) && IsPrinting(s', c);
    forall d ensures IsPrinting(s', d) ==> d == c {
      assert First(s, c) && (IsPrinting(s', d) ==> First(s, d));
    }
    assert now.msg[..now.sent + 1] == now.msg[..now.sent] + [now.msg[now.sent]];
    assert s'.output == Flat(s.done) + now.msg[..now.sent + 1];
  }

  lemma FlatSnoc(messages: seq<Message>, msg: Message)
    ensures Flat(messages + [msg]) == Flat(messages) + msg
  {
  }

  /** Whoever gets to the print flag finds it free: the flag never refuses. */
  lemma AcquireSucceeds(s: Sys, c: Caller)
    requires Inv(s) && c in s.callers && s.callers[c].Entered? && s.callers[c].seen <= 0
    ensures s.printing == 0
  {
    if s.printing == 1 {
      var d :| IsPrinting(s, d);
      assert First(s, d) && First(s, c);
    }
  }

  lemma StepKeepsInv(s: Sys, a: Action, s': Sys)
    requires Inv(s) && Does(s, a, s')
    ensures Inv(s')
  {
    hide Does, Whole, First, CallerOk, IsPrinting;
    StepKeepsDepth(s, a, s');
    StepKeepsFirst(s, a, s');
    StepKeepsFlag(s, a, s');
    StepKeepsWhole(s, a, s');
  }

  // ----- runs

  ghost predicate Quiet(s: Sys)
  {
    s.depth == 0 && s.printing == 0 && s.output == [] && s.done == [] && forall c :: c in s.callers ==> s.callers[c].Outside?
  }

  ghost predicate CanStep(s: Sys, s': Sys)
  {
    exists a :: Does(s, a, s')
  }

  ghost predicate StepAt(run: seq<Sys>, i: int)
  {
    0 <= i < |run| - 1 && CanStep(run[i], run[i + 1])
  }

  ghost predicate IsRun(run: seq<Sys>)
  {
    |run| >= 1 && Quiet(run[0]) && forall i :: 0 <= i < |run| - 1 ==> StepAt(run, i)
  }

  lemma {:induction false} RunInv(run: seq<Sys>, i: nat)
    requires IsRun(run) && i < |run|
    ensures Inv(run[i])
  {
    if i == 0 {
      assert Inside(run[0].callers) == {};
    } else {
      hide Inv, Does;
      RunInv(run, i - 1);
      assert StepAt(run, i - 1);
      var a :| Does(run[i - 1], a, run[i]);
      StepKeepsInv(run[i - 1], a, run[i]);
    }
  }

  /** Messages never mix: at any moment of any run the console has received whole messages one after the other,
      then a beginning of the one being printed, if one is. The depth counts the callers inside, and the flag says
      whether one of them prints. */
  lemma OutputIsWhole(run: seq<Sys>, i: nat)
    requires IsRun(run) && i < |run|
    ensures forall c, d :: IsPrinting(run[i], c) && IsPrinting(run[i], d) ==> c == d
    ensures forall c :: IsPrinting(run[i], c) ==>
              run[i].callers[c].sent <= |run[i].callers[c].msg|
              && run[i].output == Flat(run[i].done) + run[i].callers[c].msg[..run[i].callers[c].sent]
    ensures (forall c :: !IsPrinting(run[i], c)) ==> run[i].output == Flat(run[i].done)
    ensures run[i].depth == |Inside(run[i].callers)|
    ensures run[i].printing == if exists c :: IsPrinting(run[i], c) then 1 else 0
  {
    RunInv(run, i);
    forall c ensures IsPrinting(run[i], c) ==> First(run[i], c) {}
  }

  /** A message is dropped exactly when somebody else was inside as it came, and never for the print flag. */
  lemma DroppedExactlyWhenBusy(run: seq<Sys>, i: nat, c: Caller, msg: Message)
    requires IsRun(run) && i + 1 < |run| && Does(run[i], Enter(c, msg), run[i + 1])
    ensures run[i + 1].callers[c].seen > 0 <==> exists d :: d in run[i].callers && !run[i].callers[d].Outside?
    ensures forall j, d :: 0 <= j < |run| && d in run[j].callers ==> !run[j].callers[d].Refused?
  {
    RunInv(run, i);
    var s := run[i];
    if d :| d in s.callers && !s.callers[d].Outside? {
      assert d in Inside(s.callers);
    } else {
      assert Inside(s.callers) == {};
    }
    forall j, d | 0 <= j < |run| && d in run[j].callers ensures !run[j].callers[d].Refused? {
      RunInv(run, j);
      assert CallerOk(run[j], d);
    }
  }

  /** Busy is more than printing: a caller that is itself about to give up makes a third one give up too, though
      nothing is being printed. */
  lemma DroppedThoughNobodyPrints(msg: Message) returns (run: seq<Sys>)
    ensures IsRun(run) && |run| == 7
    ensures forall c :: !First(run[5], c)
    ensures Does(run[5], Enter(2, msg), run[6]) && run[6].callers[2] == Entered(1, msg)
  {
    var callers := map[0 := Outside, 1 := Outside, 2 := Outside];
    var s0 := Sys(0, 0, callers, [], []);
    var s1 := Sys(1, 0, callers[0 := Entered(0, [])], [], []);
    var s2 := Sys(2, 0, s1.callers[1 := Entered(1, msg)], [], []);
    var s3 := Sys(2, 1, s2.callers[0 := Printing([], 0)], [], []);
    var s4 := Sys(2, 0, s3.callers[0 := Released], [], [[]]);
    var s5 := Sys(1, 0, s4.callers[0 := Outside], [], [[]]);
    var s6 := Sys(2, 0, s5.callers[2 := Entered(1, msg)], [], [[]]);
    run := [s0, s1, s2, s3, s4, s5, s6];
    assert Does(s0, Enter(0, []), s1);
    assert Does(s1, Enter(1, msg), s2);
    assert Does(s2, Acquire(0), s3);
    assert Does(s3, Release(0), s4);
    assert Does(s4, Leave(0), s5);
    assert Does(s5, Enter(2, msg), s6);
    assert forall c :: !First(s5, c);
    hide Does;
    assert StepAt(run, 0) && StepAt(run, 1) && StepAt(run, 2) && StepAt(run, 3) && StepAt(run, 4) && StepAt(run, 5);
  }
}
