// Which history load owns the view (clients/gtk/gtk-chat.c, the first half of
// clawt_gtk_load_history). A request iterates the main loop while it waits, so
// anything, another load included, may run inside the wait.

module HistoryLoads {
  import opened Options
  import opened HistoryMerge

  datatype Reply = Reply(room: Option<string>, messages: seq<Message>)

  // Something the main loop runs. A load knows what its two requests will
  // answer and what runs inside each wait; Clear is the call made with nothing
  // selected.
  datatype Event =
    | Load(id: nat, reply: Option<Reply>, during: seq<Event>, steps: seq<Step>, later: seq<Event>)
    | Clear

  // What happened, in the order it happened.
  datatype Mark =
    | Began(load: Event)
    | Took(load: Event)      // the load found itself the newest and took the view
    | Drew(load: Event)
    | Cleared

  // ---------------------------------------------------------------------
  // The marks of a run. Whether a load is superseded is said without the
  // generation counter: another one began inside its first wait.

  predicate Asks(load: Event)
    requires load.Load?
  {
    load.reply.Some? && load.reply.value.room.Some?
  }

  function Trace(e: Event): seq<Mark>
    decreases e, 1
  {
    if e.Clear? then [Cleared]
    else
      [Began(e)] + TraceAll(e.during) +
      (if Loads(TraceAll(e.during)) > 0 then []
       else [Took(e)] + (if Asks(e) then TraceAll(e.later) else []) + [Drew(e)])
  }

  function TraceAll(es: seq<Event>): seq<Mark>
    decreases es, 0
  {
    if es == [] then [] else Trace(es[0]) + TraceAll(es[1..])
  }

  function Loads(marks: seq<Mark>): nat {
    if marks == [] then 0 else (if marks[0].Began? then 1 else 0) + Loads(marks[1..])
  }

  // ---------------------------------------------------------------------
  // What the marks do to the view.

  datatype View = View(room: Option<string>, transcript: seq<Drawn>, shown: set<string>)

  const BLANK: View := View(None, [], {})

  function RoomOf(load: Event): Option<string>
    requires load.Load?
  {
    if load.reply.None? then None else load.reply.value.room
  }

  // What a load draws: nothing when the request failed, and no steps when the
  // reply names no room to ask about.
  function DrawnBy(load: Event): (seq<Drawn>, set<string>)
    requires load.Load?
  {
    if load.reply.None? then ([], {})
    else (Merge(load.reply.value.messages, if Asks(load) then load.steps else []), Ids(load.reply.value.messages))
  }

  predicate OfLoads(marks: seq<Mark>) {
    forall i :: 0 <= i < |marks| && !marks[i].Cleared? ==> marks[i].load.Load?
  }

  function Apply(v: View, m: Mark): View
    requires m.Cleared? || m.load.Load?
  {
    match m
    case Began(_) => v
    case Took(load) => View(RoomOf(load), [], {})
    case Drew(load) => View(v.room, v.transcript + DrawnBy(load).0, v.shown + DrawnBy(load).1)
    case Cleared => BLANK
  }

  function ApplyAll(v: View, marks: seq<Mark>): View
    requires OfLoads(marks)
    decreases |marks|
  {
    if marks == [] then v else ApplyAll(Apply(v, marks[0]), marks[1..])
  }

  lemma {:induction false} ApplyAppend(v: View, a: seq<Mark>, b: seq<Mark>)
    requires OfLoads(a) && OfLoads(b)
    ensures OfLoads(a + b) && ApplyAll(v, a + b) == ApplyAll(ApplyAll(v, a), b)
    decreases |a|
  {
    if a == [] {
      assert a + b == b;
    } else {
      assert (a + b)[1..] == a[1..] + b;
      ApplyAppend(Apply(v, a[0]), a[1..], b);
    }
  }

  lemma {:induction false} LoadsAppend(a: seq<Mark>, b: seq<Mark>)
    ensures Loads(a + b) == Loads(a) + Loads(b)
    decreases |a|
  {
    if a == [] {
      assert a + b == b;
    } else {
      assert (a + b)[1..] == a[1..] + b;
      LoadsAppend(a[1..], b);
    }
  }

  lemma {:induction false} TraceIsOfLoads(e: Event)
    ensures OfLoads(Trace(e))
    decreases e, 1
  {
    if e.Load? {
      TraceAllIsOfLoads(e.during);
      TraceAllIsOfLoads(e.later);
    }
  }

  lemma {:induction false} TraceAllIsOfLoads(es: seq<Event>)
    ensures OfLoads(TraceAll(es))
    decreases es, 0
  {
    if es != [] {
      TraceIsOfLoads(es[0]);
      TraceAllIsOfLoads(es[1..]);
    }
  }

  // What runs inside its first wait begins no load, and nothing runs inside its second.
  predicate Undisturbed(load: Event)
    requires load.Load?
  {
    (forall e :: e in load.during ==> e.Clear?) && (load.reply.Some? && load.reply.value.room.Some? ==> load.later == [])
  }

  lemma {:induction false} ClearsBeginNothing(es: seq<Event>)
    requires forall e :: e in es ==> e.Clear?
    ensures Loads(TraceAll(es)) == 0
    decreases |es|
  {
    if es != [] {
      assert es[0] in es;
      ClearsBeginNothing(es[1..]);
      LoadsAppend([Cleared], TraceAll(es[1..]));
    }
  }

  // What a load draws, by what it was answered: its messages, once and in order, the
  // steps when there is a room to ask about, and the ids that the messages have.
  lemma DrawnByMeans(load: Event)
    requires load.Load?
    ensures load.reply.None? ==> DrawnBy(load) == ([], {})
    ensures load.reply.Some? ==>
      && MessagesOf(DrawnBy(load).0) == load.reply.value.messages
      && StepsOf(DrawnBy(load).0) == (if load.reply.value.room.Some? then load.steps else [])
      && forall id :: id in DrawnBy(load).1 <==> exists m :: m in load.reply.value.messages && m.id == Some(id)
  {
    if load.reply.Some? {
      var messages := load.reply.value.messages;
      MergeIsInterleaving(messages, if load.reply.value.room.Some? then load.steps else []);
      forall m | m in messages && m.id.Some? ensures m.id.value in Ids(messages) {
      }
    }
  }

  lemma TakenMeans(e: Event)
    requires e.Load? && Undisturbed(e)
    ensures OfLoads(TraceAll(e.later)) && TakenView(e) == View(RoomOf(e), DrawnBy(e).0, DrawnBy(e).1)
    ensures e.reply.None? ==> TakenView(e) == BLANK
    ensures e.reply.Some? ==>
      && TakenView(e).room == e.reply.value.room
      && MessagesOf(TakenView(e).transcript) == e.reply.value.messages
      && StepsOf(TakenView(e).transcript) == (if e.reply.value.room.Some? then e.steps else [])
      && forall id :: id in TakenView(e).shown <==> exists m :: m in e.reply.value.messages && m.id == Some(id)
  {
    hide DrawnBy, MessagesOf, StepsOf;
    TraceAllIsOfLoads(e.later);
    DrawnByMeans(e);
    assert [] + DrawnBy(e).0 == DrawnBy(e).0 && {} + DrawnBy(e).1 == DrawnBy(e).1;
  }

  // ---------------------------------------------------------------------
  // The window, and the code.

  const GUINT: nat := 0x1_0000_0000

  // The counter after n more loads have begun.
  function After(g: nat, n: nat): (r: nat)
    ensures r < GUINT
  {
    (g + n) % GUINT
  }

  class Window {
    var generation: nat
    var inflight: nat
    var room: Option<string>
    var transcript: seq<Drawn>
    var shown: set<string>

    ghost predicate Valid()
      reads this
    {
      generation < GUINT
    }

    ghost function Now(): View
      reads this
    {
      View(room, transcript, shown)
    }

    constructor ()
      ensures Valid() && Now() == BLANK && inflight == 0
    {
      generation, inflight, room, transcript, shown := 0, 0, None, [], {};
    }

    // clawt_gtk_load_history. The counter is a guint; the run is assumed to
    // begin fewer than 2^32 loads.
    method LoadHistory(e: Event)
      requires Valid() && Loads(Trace(e)) < GUINT
      modifies this
      ensures Valid() && inflight == old(inflight)
      ensures generation == After(old(generation), Loads(Trace(e)))
      ensures OfLoads(Trace(e)) && Now() == ApplyAll(old(Now()), Trace(e))
      ensures e.Clear? ==> room == None && transcript == [] && shown == {}
      // In terms of the event alone, when no newer load begins inside it: the room,
      // every message and every step that was asked for, once and in order, and the ids.
      ensures e.Load? && Undisturbed(e) ==>
        if e.reply.None? then room == None && transcript == [] && shown == {}
        else
          && room == e.reply.value.room
          && MessagesOf(transcript) == e.reply.value.messages
          && StepsOf(transcript) == (if room.Some? then e.steps else [])
          && forall id :: id in shown <==> exists m :: m in e.reply.value.messages && m.id == Some(id)
      decreases e, 1
    {
      hide After;
      TraceIsOfLoads(e);
      NoneAfter(generation);
      if e.Clear? {
        transcript := [];
        room := None;
        shown := {};
        return;
      }
      TraceParts(e, Now());
      if Undisturbed(e) {
        ClearsBeginNothing(e.during);
        TakenMeans(e);
      }
      ghost var g, n, total := generation, Loads(TraceAll(e.during)), Loads(Trace(e));
      ghost var l := if Asks(e) then Loads(TraceAll(e.later)) else 0;
      generation := After(generation, 1);
      var mine := generation;
      inflight := inflight + 1;
      RunAll(e.during);
      inflight := inflight - 1;
      AfterSome(mine, n);
      AfterTwice(g, 1, n);
      if mine != generation {
        return;
      }
      AfterTwice(g, 1, l);
      TakeView(e);
    }

    // The rest of the function, for the load that finds itself the newest.
    method TakeView(e: Event)
      requires Valid() && e.Load? && (Asks(e) ==> Loads(TraceAll(e.later)) < GUINT)
      modifies this
      ensures Valid() && inflight == old(inflight)
      ensures generation == After(old(generation), if Asks(e) then Loads(TraceAll(e.later)) else 0)
      ensures OfLoads(TraceAll(e.later)) && Now() == TakenView(e)
      decreases e, 0
    {
      hide After;
      NoneAfter(generation);
      TraceAllIsOfLoads(e.later);
      transcript := [];
      room := None;
      shown := {};
      if e.reply.None? {
        return;
      }
      room := e.reply.value.room;
      var steps: seq<Step> := [];
      if room.Some? {
        RunAll(e.later);
        steps := e.steps;
      }
      var drawn, ids := DrawHistory(e.reply.value.messages, steps);
      transcript := transcript + drawn;
      shown := shown + ids;
    }

    // What the main loop does inside a wait.
    method RunAll(es: seq<Event>)
      requires Valid() && Loads(TraceAll(es)) < GUINT
      modifies this
      ensures Valid() && inflight == old(inflight)
      ensures generation == After(old(generation), Loads(TraceAll(es)))
      ensures OfLoads(TraceAll(es)) && Now() == ApplyAll(old(Now()), TraceAll(es))
      decreases es, 0
    {
      hide After;
      NoneAfter(generation);
      TraceAllIsOfLoads(es);
      if es == [] {
        return;
      }
      ghost var v, g := Now(), generation;
      ghost var m, n := Loads(Trace(es[0])), Loads(TraceAll(es[1..]));
      TraceIsOfLoads(es[0]);
      TraceAllIsOfLoads(es[1..]);
      LoadsAppend(Trace(es[0]), TraceAll(es[1..]));
      ApplyAppend(v, Trace(es[0]), TraceAll(es[1..]));
      LoadHistory(es[0]);
      RunAll(es[1..]);
      AfterTwice(g, m, n);
    }
  }

  lemma NoneAfter(g: nat)
    requires g < GUINT
    ensures After(g, 0) == g
  {
  }

  lemma AfterTwice(g: nat, m: nat, n: nat)
    ensures After(After(g, m), n) == After(g, m + n)
  {
  }

  // Events run one after another, and every one of them runs.
  lemma {:induction false} RunsInTurn(es: seq<Event>, more: seq<Event>)
    ensures TraceAll(es + more) == TraceAll(es) + TraceAll(more)
    decreases |es|
  {
    if es == [] {
      assert es + more == more;
    } else {
      RunsInTurn(es[1..], more);
      assert (es + more)[1..] == es[1..] + more;
      assert Trace(es[0]) + (TraceAll(es[1..]) + TraceAll(more)) == (Trace(es[0]) + TraceAll(es[1..])) + TraceAll(more);
    }
  }

  lemma OneEventRuns(e: Event)
    ensures TraceAll([e]) == Trace(e) && (if e.Clear? then Trace(e) == [Cleared] else Trace(e) != [] && Trace(e)[0] == Began(e))
    ensures e.Load? ==> forall m :: m in TraceAll(e.during) ==> m in Trace(e)
    ensures e.Load? && Loads(TraceAll(e.during)) == 0 ==>
      && Took(e) in Trace(e) && Trace(e)[|Trace(e)| - 1] == Drew(e)
      && (e.reply.Some? && e.reply.value.room.Some? ==> forall m :: m in TraceAll(e.later) ==> m in Trace(e))
  {
    assert [e][1..] == [];
    assert Trace(e) + [] == Trace(e);
    if e.Load? {
      TraceShape(e, TraceAll(e.during), if Asks(e) then TraceAll(e.later) else []);
    }
  }

  // Fewer than 2^32 loads later, the counter is back only if there were none.
  lemma AfterSome(g: nat, n: nat)
    requires g < GUINT && n < GUINT
    ensures After(g, n) == g <==> n == 0
  {
  }

  // What a load makes of the view once it takes it.
  function TakenView(e: Event): View
    requires e.Load? && OfLoads(TraceAll(e.later))
  {
    var taken := View(RoomOf(e), [], {});
    Apply(if Asks(e) then ApplyAll(taken, TraceAll(e.later)) else taken, Drew(e))
  }

  // The marks of one load, applied part by part.
  lemma TraceParts(e: Event, v: View)
    requires e.Load?
    ensures OfLoads(Trace(e)) && OfLoads(TraceAll(e.during)) && OfLoads(TraceAll(e.later))
    ensures var n := Loads(TraceAll(e.during));
      Loads(Trace(e)) == 1 + n + (if n > 0 || !Asks(e) then 0 else Loads(TraceAll(e.later)))
    ensures var w := ApplyAll(v, TraceAll(e.during));
      ApplyAll(v, Trace(e)) ==
        if Loads(TraceAll(e.during)) > 0 then w else TakenView(e)
  {
    TraceAllIsOfLoads(e.during);
    TraceAllIsOfLoads(e.later);
    var began, during, later := [Began(e)], TraceAll(e.during), if Asks(e) then TraceAll(e.later) else [];
    var front, back := began + during, [Took(e)] + later + [Drew(e)];
    LoadsAppend(began, during);
    ApplyAppend(v, began, during);
    LoadsAppend([Took(e)], later);
    LoadsAppend([Took(e)] + later, [Drew(e)]);
    var w := ApplyAll(v, front);
    ApplyAppend(w, [Took(e)], later);
    ApplyAppend(w, [Took(e)] + later, [Drew(e)]);
    LoadsAppend(front, back);
    ApplyAppend(v, front, back);
    assert front + [] == front;
  }

  // ---------------------------------------------------------------------
  // Who wins.

  // The load that began last.
  function Newest(marks: seq<Mark>): Option<Event> {
    if marks == [] then None
    else if marks[|marks| - 1].Began? then Some(marks[|marks| - 1].load)
    else Newest(marks[..|marks| - 1])
  }

  // The load that took the view last.
  function Owner(marks: seq<Mark>): Option<Event> {
    if marks == [] then None
    else if marks[|marks| - 1].Took? then Some(marks[|marks| - 1].load)
    else Owner(marks[..|marks| - 1])
  }

  // Whether the view was cleared after it was last taken.
  predicate ClearedSince(marks: seq<Mark>) {
    marks != [] && !marks[|marks| - 1].Took? && (marks[|marks| - 1].Cleared? || ClearedSince(marks[..|marks| - 1]))
  }

  lemma {:induction false} LastAppend(a: seq<Mark>, b: seq<Mark>)
    ensures Newest(a + b) == if Newest(b).Some? then Newest(b) else Newest(a)
    ensures Owner(a + b) == if Owner(b).Some? then Owner(b) else Owner(a)
    ensures ClearedSince(a + b) <==> ClearedSince(b) || (Owner(b).None? && ClearedSince(a))
    decreases |b|
  {
    if b == [] {
      assert a + b == a;
    } else {
      var init := b[..|b| - 1];
      assert (a + b)[..|a + b| - 1] == a + init;
      LastAppend(a, init);
    }
  }

  lemma {:induction false} NewestIffLoads(marks: seq<Mark>)
    ensures Newest(marks).Some? <==> Loads(marks) > 0
    decreases |marks|
  {
    if marks != [] {
      var init := marks[..|marks| - 1];
      NewestIffLoads(init);
      LoadsAppend(init, [marks[|marks| - 1]]);
      assert marks == init + [marks[|marks| - 1]];
    }
  }

  // The parts of a load's marks that decide who is newest and who owns the view.
  lemma LastParts(e: Event)
    requires e.Load?
    ensures var d, l := TraceAll(e.during), if Asks(e) then TraceAll(e.later) else [];
      && Newest(Trace(e)) == (if Loads(d) > 0 then Newest(d) else if Newest(l).Some? then Newest(l) else Some(e))
      && Owner(Trace(e)) == (if Loads(d) > 0 then Owner(d) else if Owner(l).Some? then Owner(l) else Some(e))
      && ClearedSince(Trace(e)) == (if Loads(d) > 0 then ClearedSince(d) else ClearedSince(l))
  {
    var d, l := TraceAll(e.during), if Asks(e) then TraceAll(e.later) else [];
    NewestIffLoads(d);
    var front := [Began(e)] + d;
    LastAppend([Began(e)], d);
    assert [Began(e)][..0] == [];
    LastAppend([Took(e)], l);
    assert [Took(e)][..0] == [];
    LastAppend([Took(e)] + l, [Drew(e)]);
    assert [Drew(e)][..0] == [];
    LastAppend(front, [Took(e)] + l + [Drew(e)]);
    assert front + [] == front;
  }

  // In every run, whatever nests in whatever: the load that took the view last
  // is the one that began last.
  lemma {:induction false} NewestOwns(es: seq<Event>)
    ensures Owner(TraceAll(es)) == Newest(TraceAll(es))
    decreases es, 0
  {
    if es != [] {
      NewestOwnsOne(es[0]);
      NewestOwns(es[1..]);
      LastAppend(Trace(es[0]), TraceAll(es[1..]));
    }
  }

  lemma {:induction false} NewestOwnsOne(e: Event)
    ensures Owner(Trace(e)) == Newest(Trace(e))
    decreases e, 1
  {
    if e.Load? {
      LastParts(e);
      NewestOwns(e.during);
      NewestOwns(e.later);
    } else {
      assert Trace(e)[..0] == [];
    }
  }

  // A load that finds a newer one began while it waited takes nothing: whenever
  // the view is taken, it is by the load that began last before that.
  ghost predicate TakenByNewest(marks: seq<Mark>) {
    forall i :: 0 <= i < |marks| && marks[i].Took? ==> Newest(marks[..i]) == Some(marks[i].load)
  }

  lemma TakenAppend(a: seq<Mark>, b: seq<Mark>)
    requires TakenByNewest(a) && TakenByNewest(b)
    ensures TakenByNewest(a + b)
  {
    var both := a + b;
    forall i | 0 <= i < |both| && both[i].Took? ensures Newest(both[..i]) == Some(both[i].load) {
      if i < |a| {
        assert both[..i] == a[..i];
      } else {
        assert both[..i] == a + b[..i - |a|];
        LastAppend(a, b[..i - |a|]);
      }
    }
  }

  lemma TakenPush(front: seq<Mark>, e: Event)
    requires TakenByNewest(front) && Newest(front) == Some(e)
    ensures TakenByNewest(front + [Took(e)])
  {
    var taken := front + [Took(e)];
    forall i | 0 <= i < |taken| && taken[i].Took? ensures Newest(taken[..i]) == Some(taken[i].load) {
      if i < |front| {
        assert taken[..i] == front[..i];
      } else {
        assert taken[..i] == front;
      }
    }
  }

  lemma {:induction false} StaleNeverTakes(es: seq<Event>)
    ensures TakenByNewest(TraceAll(es))
    decreases es, 0
  {
    if es != [] {
      StaleNeverTakesOne(es[0]);
      StaleNeverTakes(es[1..]);
      TakenAppend(Trace(es[0]), TraceAll(es[1..]));
    }
  }

  lemma {:induction false} StaleNeverTakesOne(e: Event)
    ensures TakenByNewest(Trace(e))
    decreases e, 1
  {
    if e.Load? {
      var d, l := TraceAll(e.during), if Asks(e) then TraceAll(e.later) else [];
      StaleNeverTakes(e.during);
      StaleNeverTakes(e.later);
      var front := [Began(e)] + d;
      TakenAppend([Began(e)], d);
      TraceShape(e, d, l);
      if Loads(d) == 0 {
        NewestIffLoads(d);
        LastAppend([Began(e)], d);
        assert [Began(e)][..0] == [];
        var taken := front + [Took(e)];
        TakenPush(front, e);
        TakenAppend(taken, l);
        TakenAppend(taken + l, [Drew(e)]);
      }
    }
  }

  lemma TraceShape(e: Event, d: seq<Mark>, l: seq<Mark>)
    requires e.Load? && d == TraceAll(e.during) && l == if Asks(e) then TraceAll(e.later) else []
    ensures Trace(e) ==
      if Loads(d) == 0 then ((([Began(e)] + d) + [Took(e)]) + l) + [Drew(e)] else [Began(e)] + d
  {
    var front := [Began(e)] + d;
    assert front + [] == front;
    assert front + ([Took(e)] + l + [Drew(e)]) == ((front + [Took(e)]) + l) + [Drew(e)];
  }

  // The room after any marks, by who owned the view last.
  lemma {:induction false} RoomAfter(v: View, marks: seq<Mark>)
    requires OfLoads(marks)
    ensures Owner(marks).Some? ==> Owner(marks).value.Load?
    ensures ApplyAll(v, marks).room ==
      if ClearedSince(marks) then None
      else if Owner(marks).Some? then RoomOf(Owner(marks).value)
      else v.room
    decreases |marks|
  {
    if marks != [] {
      var init, last := marks[..|marks| - 1], marks[|marks| - 1];
      assert marks == init + [last];
      RoomAfter(v, init);
      ApplyAppend(v, init, [last]);
      assert [last][1..] == [];
    }
  }

  // When everything has returned: the room is that of the newest load's reply,
  // unset if that load failed, unless the view was cleared after it was taken.
  lemma FinalRoom(v: View, es: seq<Event>)
    requires Loads(TraceAll(es)) > 0
    ensures OfLoads(TraceAll(es)) && Newest(TraceAll(es)).Some? && Newest(TraceAll(es)).value.Load?
    ensures ApplyAll(v, TraceAll(es)).room ==
      if ClearedSince(TraceAll(es)) then None else RoomOf(Newest(TraceAll(es)).value)
  {
    TraceAllIsOfLoads(es);
    NewestOwns(es);
    NewestIffLoads(TraceAll(es));
    RoomAfter(v, TraceAll(es));
  }

  // Clearing the selection does not count as beginning a load, so a clear inside
  // the newest load's wait is undone when that load returns.
  lemma ClearInsideWaitIsLost()
    ensures var es := [Load(1, Some(Reply(Some("chief"), [])), [Clear], [], [])];
      OfLoads(TraceAll(es)) && ApplyAll(BLANK, TraceAll(es)).room == Some("chief") && TraceAll(es)[1] == Cleared
  {
    var e := Load(1, Some(Reply(Some("chief"), [])), [Clear], [], []);
    assert [Clear][1..] == [] && [e][1..] == [];
    assert TraceAll([Clear]) == [Cleared];
    TraceParts(e, BLANK);
    assert TraceAll([e]) == Trace(e);
    assert Trace(e)[1] == Cleared;
  }

  // ---------------------------------------------------------------------
  // What is on screen.

  // The view a load alone makes.
  function ViewOf(load: Event): View
    requires load.Load?
  {
    View(RoomOf(load), DrawnBy(load).0, DrawnBy(load).1)
  }

  // The loads that have drawn since the view was last taken or cleared, in order.
  function DrewSince(marks: seq<Mark>): seq<Event> {
    if marks == [] then []
    else
      var last, front := marks[|marks| - 1], marks[..|marks| - 1];
      if last.Took? || last.Cleared? then []
      else if last.Drew? then DrewSince(front) + [last.load]
      else DrewSince(front)
  }

  predicate AreLoads(loads: seq<Event>) {
    forall i :: 0 <= i < |loads| ==> loads[i].Load?
  }

  // What they draw, one under the other.
  function Drawings(loads: seq<Event>): (seq<Drawn>, set<string>)
    requires AreLoads(loads)
  {
    if loads == [] then ([], {})
    else
      var above, last := Drawings(loads[..|loads| - 1]), DrawnBy(loads[|loads| - 1]);
      (above.0 + last.0, above.1 + last.1)
  }

  // In any run that takes the view, the transcript and the ids are those drawings.
  lemma {:induction false} DrawnAfter(v: View, marks: seq<Mark>)
    requires OfLoads(marks)
    ensures AreLoads(DrewSince(marks))
    ensures Owner(marks).Some? || ClearedSince(marks) ==>
      (ApplyAll(v, marks).transcript, ApplyAll(v, marks).shown) == Drawings(DrewSince(marks))
    decreases |marks|
  {
    if marks != [] {
      var front, last := marks[..|marks| - 1], marks[|marks| - 1];
      DrawnAfter(v, front);
      assert marks == front + [last] && [last][1..] == [];
      ApplyAppend(v, front, [last]);
      assert ApplyAll(ApplyAll(v, front), [last]) == Apply(ApplyAll(v, front), last);
      if last.Drew? {
        assert (DrewSince(front) + [last.load])[..|DrewSince(front)|] == DrewSince(front);
      }
    }
  }

  lemma {:induction false} DrewAppend(a: seq<Mark>, b: seq<Mark>)
    ensures DrewSince(a + b) ==
      if Owner(b).Some? || ClearedSince(b) then DrewSince(b) else DrewSince(a) + DrewSince(b)
    decreases |b|
  {
    if b == [] {
      assert a + b == a;
    } else {
      assert (a + b)[..|a + b| - 1] == a + b[..|b| - 1];
      DrewAppend(a, b[..|b| - 1]);
    }
  }

  // The newest load draws before any older one that was still waiting.
  lemma {:induction false} NewestDrawsFirst(es: seq<Event>)
    ensures var marks := TraceAll(es);
      !ClearedSince(marks) ==>
        if Owner(marks).Some? then DrewSince(marks) != [] && DrewSince(marks)[0] == Owner(marks).value
        else marks == []
    decreases es, 0
  {
    if es != [] {
      var a, b := Trace(es[0]), TraceAll(es[1..]);
      NewestDrawsFirstOne(es[0]);
      NewestDrawsFirst(es[1..]);
      LastAppend(a, b);
      DrewAppend(a, b);
      assert a + [] == a;
    }
  }

  lemma {:induction false} NewestDrawsFirstOne(e: Event)
    ensures var marks := Trace(e);
      !ClearedSince(marks) ==>
        Owner(marks).Some? && DrewSince(marks) != [] && DrewSince(marks)[0] == Owner(marks).value
    decreases e, 1
  {
    if e.Load? {
      var d, l := TraceAll(e.during), if Asks(e) then TraceAll(e.later) else [];
      LastParts(e);
      NewestDrawsFirst(e.during);
      NewestDrawsFirst(e.later);
      NewestOwns(e.during);
      NewestIffLoads(d);
      DrewAppend([Began(e)], d);
      if Loads(d) == 0 {
        DrewOfNewest(e, d, l);
      } else {
        assert [Began(e)] + d + [] == [Began(e)] + d;
      }
    }
  }

  lemma DrewOfNewest(e: Event, d: seq<Mark>, l: seq<Mark>)
    requires Owner(l).Some? || ClearedSince(l) || l == []
    ensures DrewSince([Began(e)] + d + ([Took(e)] + l + [Drew(e)])) == DrewSince(l) + [e]
  {
    var back := [Took(e)] + l + [Drew(e)];
    assert back[..|back| - 1] == [Took(e)] + l;
    DrewAppend([Took(e)], l);
    assert [Took(e)] + [] == [Took(e)];
    LastAppend([Took(e)], l);
    LastAppend([Took(e)] + l, [Drew(e)]);
    DrewAppend([Began(e)] + d, back);
  }

  // A load that draws nothing shows no ids either.
  lemma DrawsNothing(e: Event)
    requires e.Load? && DrawnBy(e).0 == []
    ensures DrawnBy(e).1 == {}
  {
    if e.reply.Some? {
      MergeIsInterleaving(e.reply.value.messages, if Asks(e) then e.steps else []);
    }
  }

  lemma JoinAlone(first: seq<Drawn>, above: seq<Drawn>, last: seq<Drawn>)
    requires first <= above
    ensures first <= above + last
    ensures above + last == first <==> above == first && last == []
  {
  }

  lemma NothingElse(loads: seq<Event>, front: seq<Event>)
    requires AreLoads(loads) && |loads| >= 2 && front == loads[..|loads| - 1]
    ensures (forall i :: 1 <= i < |loads| ==> DrawnBy(loads[i]).0 == []) <==>
      (forall i :: 1 <= i < |front| ==> DrawnBy(front[i]).0 == []) && DrawnBy(loads[|loads| - 1]).0 == []
  {
    assert forall i :: 0 <= i < |front| ==> front[i] == loads[i];
  }

  lemma {:induction false} FirstAlone(loads: seq<Event>)
    requires AreLoads(loads) && loads != []
    ensures DrawnBy(loads[0]).0 <= Drawings(loads).0
    ensures Drawings(loads).0 == DrawnBy(loads[0]).0 <==>
      forall i :: 1 <= i < |loads| ==> DrawnBy(loads[i]).0 == []
    decreases |loads|
  {
    var front, last := loads[..|loads| - 1], loads[|loads| - 1];
    if front == [] {
      assert Drawings(front) == ([], {});
      assert [] + DrawnBy(last).0 == DrawnBy(last).0;
    } else {
      FirstAlone(front);
      assert front[0] == loads[0];
      assert forall i :: 0 <= i < |front| ==> front[i] == loads[i];
      assert Drawings(loads).0 == Drawings(front).0 + DrawnBy(last).0;
      JoinAlone(DrawnBy(loads[0]).0, Drawings(front).0, DrawnBy(last).0);
      NothingElse(loads, front);
    }
  }

  lemma {:induction false} OthersDrewNothing(loads: seq<Event>)
    requires AreLoads(loads) && loads != []
    requires forall i :: 1 <= i < |loads| ==> DrawnBy(loads[i]).0 == []
    ensures Drawings(loads) == DrawnBy(loads[0])
    decreases |loads|
  {
    var front, last := loads[..|loads| - 1], loads[|loads| - 1];
    if front == [] {
      assert Drawings(front) == ([], {});
      assert [] + DrawnBy(last).0 == DrawnBy(last).0 && {} + DrawnBy(last).1 == DrawnBy(last).1;
    } else {
      assert forall i :: 0 <= i < |front| ==> front[i] == loads[i];
      OthersDrewNothing(front);
      DrawsNothing(last);
      var above := Drawings(front);
      assert front[0] == loads[0] && above.0 + [] == above.0 && above.1 + {} == above.1;
    }
  }

  // The whole view after any run in which some load began: the room as above, and
  // under one another what was drawn since the view was last taken or cleared. It is
  // the newest load's own exactly when nothing else is in it; without a clear, when
  // every older load that drew after the newest one, from a second wait the newest
  // one ran inside, drew nothing.
  lemma FinalView(v: View, es: seq<Event>)
    requires Loads(TraceAll(es)) > 0
    ensures OfLoads(TraceAll(es)) && Newest(TraceAll(es)).Some? && Newest(TraceAll(es)).value.Load?
    ensures AreLoads(DrewSince(TraceAll(es)))
    ensures var marks, newest := TraceAll(es), Newest(TraceAll(es)).value;
      var drawn := Drawings(DrewSince(marks));
      && ApplyAll(v, marks) == View(if ClearedSince(marks) then None else RoomOf(newest), drawn.0, drawn.1)
      && (ApplyAll(v, marks) == ViewOf(newest) <==>
            (ClearedSince(marks) ==> RoomOf(newest).None?) && drawn == DrawnBy(newest))
    ensures var marks, newest := TraceAll(es), Newest(TraceAll(es)).value;
      var drew := DrewSince(marks);
      !ClearedSince(marks) ==>
        && drew != [] && drew[0] == newest
        && (ApplyAll(v, marks) == ViewOf(newest) <==> forall i :: 1 <= i < |drew| ==> DrawnBy(drew[i]).0 == [])
  {
    var marks := TraceAll(es);
    FinalRoom(v, es);
    DrawnAfter(v, marks);
    NewestOwns(es);
    NewestDrawsFirst(es);
    if !ClearedSince(marks) {
      FirstAlone(DrewSince(marks));
      if forall i :: 1 <= i < |DrewSince(marks)| ==> DrawnBy(DrewSince(marks)[i]).0 == [] {
        OthersDrewNothing(DrewSince(marks));
      }
    }
  }

  // What loads were answered, one after the other.
  function AllMessages(loads: seq<Event>): seq<Message>
    requires AreLoads(loads)
  {
    if loads == [] then []
    else
      var last := loads[|loads| - 1];
      AllMessages(loads[..|loads| - 1]) + if last.reply.Some? then last.reply.value.messages else []
  }

  function AllSteps(loads: seq<Event>): seq<Step>
    requires AreLoads(loads)
  {
    if loads == [] then []
    else
      var last := loads[|loads| - 1];
      AllSteps(loads[..|loads| - 1]) + if last.reply.Some? && last.reply.value.room.Some? then last.steps else []
  }

  lemma {:induction false} DrawingsMean(loads: seq<Event>)
    requires AreLoads(loads)
    ensures MessagesOf(Drawings(loads).0) == AllMessages(loads) && StepsOf(Drawings(loads).0) == AllSteps(loads)
    ensures forall id :: id in Drawings(loads).1 <==> exists m :: m in AllMessages(loads) && m.id == Some(id)
    decreases |loads|
  {
    hide DrawnBy;
    if loads != [] {
      var front, last := loads[..|loads| - 1], loads[|loads| - 1];
      DrawingsMean(front);
      DrawnByMeans(last);
      MessagesAppend(Drawings(front).0, DrawnBy(last).0);
      StepsAppend(Drawings(front).0, DrawnBy(last).0);
      var more := if last.reply.Some? then last.reply.value.messages else [];
      assert AllMessages(loads) == AllMessages(front) + more;
      forall id ensures id in Drawings(loads).1 <==> exists m :: m in AllMessages(loads) && m.id == Some(id) {
        IdsOfBoth(AllMessages(front), more, id);
      }
    }
  }

  lemma IdsOfBoth(a: seq<Message>, b: seq<Message>, id: string)
    ensures (exists m :: m in a + b && m.id == Some(id)) <==>
      (exists m :: m in a && m.id == Some(id)) || (exists m :: m in b && m.id == Some(id))
  {
    if m :| m in a && m.id == Some(id) {
      assert m in a + b;
    }
    if m :| m in b && m.id == Some(id) {
      assert m in a + b;
    }
  }

  // After any run in which some load began: the messages, the steps and the ids on
  // screen are those of the loads that drew since it was last taken or cleared, one
  // load after another.
  lemma OnScreen(v: View, es: seq<Event>)
    requires Loads(TraceAll(es)) > 0
    ensures OfLoads(TraceAll(es)) && AreLoads(DrewSince(TraceAll(es)))
    ensures var w, drew := ApplyAll(v, TraceAll(es)), DrewSince(TraceAll(es));
      && MessagesOf(w.transcript) == AllMessages(drew) && StepsOf(w.transcript) == AllSteps(drew)
      && forall id :: id in w.shown <==> exists m :: m in AllMessages(drew) && m.id == Some(id)
  {
    FinalView(v, es);
    DrawingsMean(DrewSince(TraceAll(es)));
  }

  // No load runs inside a second wait.
  predicate Quiet(e: Event)
    decreases e, 1
  {
    e.Load? ==> Loads(TraceAll(e.later)) == 0 && QuietAll(e.during)
  }

  predicate QuietAll(es: seq<Event>)
    decreases es, 0
  {
    es == [] || (Quiet(es[0]) && QuietAll(es[1..]))
  }

  lemma {:induction false} QuietDrawsOnce(es: seq<Event>)
    requires QuietAll(es) && !ClearedSince(TraceAll(es))
    ensures |DrewSince(TraceAll(es))| == if es == [] then 0 else 1
    decreases es, 0
  {
    if es != [] {
      var a, b := Trace(es[0]), TraceAll(es[1..]);
      LastAppend(a, b);
      DrewAppend(a, b);
      NewestDrawsFirst(es[1..]);
      QuietDrawsOnce(es[1..]);
      if b == [] {
        assert a + b == a;
        QuietDrawsOnceOne(es[0]);
      }
    }
  }

  lemma {:induction false} QuietDrawsOnceOne(e: Event)
    requires Quiet(e) && !ClearedSince(Trace(e))
    ensures |DrewSince(Trace(e))| == 1
    decreases e, 1
  {
    if e.Load? {
      var d, l := TraceAll(e.during), if Asks(e) then TraceAll(e.later) else [];
      LastParts(e);
      NewestDrawsFirst(e.during);
      NewestDrawsFirst(e.later);
      NewestOwns(e.during);
      NewestOwns(e.later);
      NewestIffLoads(d);
      NewestIffLoads(TraceAll(e.later));
      DrewAppend([Began(e)], d);
      if Loads(d) == 0 {
        DrewOfNewest(e, d, l);
      } else {
        assert [Began(e)] + d + [] == [Began(e)] + d;
        QuietDrawsOnce(e.during);
      }
    }
  }

  // So with no load inside a second wait, the view is the newest load's own: its
  // room, its messages and steps merged, its message ids; blank when it failed.
  lemma QuietFinalView(v: View, es: seq<Event>)
    requires QuietAll(es) && Loads(TraceAll(es)) > 0 && !ClearedSince(TraceAll(es))
    ensures OfLoads(TraceAll(es)) && Newest(TraceAll(es)).Some? && Newest(TraceAll(es)).value.Load?
    ensures ApplyAll(v, TraceAll(es)) == ViewOf(Newest(TraceAll(es)).value)
    ensures var w, newest := ApplyAll(v, TraceAll(es)), Newest(TraceAll(es)).value;
      if newest.reply.None? then w == View(None, [], {})
      else
        && w.room == newest.reply.value.room
        && MessagesOf(w.transcript) == newest.reply.value.messages
        && StepsOf(w.transcript) == (if w.room.Some? then newest.steps else [])
        && forall id :: id in w.shown <==> exists m :: m in newest.reply.value.messages && m.id == Some(id)
  {
    FinalView(v, es);
    DrawnByMeans(Newest(TraceAll(es)).value);
    QuietDrawsOnce(es);
  }

  // With one, the room is still the newest load's, but the transcript is not.
  lemma LateLoadMixesTranscripts()
    ensures
      var m, n := Message(None, "user", "to the chief", 1), Message(None, "user", "to the agent", 2);
      var inner := Load(2, Some(Reply(Some("agent"), [n])), [], [], []);
      var es := [Load(1, Some(Reply(Some("chief"), [m])), [], [], [inner])];
      OfLoads(TraceAll(es)) && ApplyAll(BLANK, TraceAll(es)).room == Some("agent") &&
      ApplyAll(BLANK, TraceAll(es)).transcript == [Posted(n), Posted(m)]
  {
    var m, n := Message(None, "user", "to the chief", 1), Message(None, "user", "to the agent", 2);
    var inner := Load(2, Some(Reply(Some("agent"), [n])), [], [], []);
    var outer := Load(1, Some(Reply(Some("chief"), [m])), [], [], [inner]);
    assert TraceAll([]) == [] && [inner][1..] == [] && [outer][1..] == [];
    assert TraceAll([inner]) == Trace(inner) && TraceAll([outer]) == Trace(outer);
    assert [m][1..] == [] && [n][1..] == [];
    assert Merge([m], []) == [Posted(m)] && Merge([n], []) == [Posted(n)];
    TraceParts(inner, View(Some("chief"), [], {}));
    TraceParts(outer, BLANK);
  }
}
