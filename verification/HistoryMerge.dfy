// The merge of a room's messages with the steps between them
// (clients/gtk/gtk-chat.c, the second half of clawt_gtk_load_history, with
// clawt_gtk_steps_append_sealed; src/chat/clawt-turn-step.c, clawt_turn_step_precedes).

module HistoryMerge {
  import opened Options
  import opened Strings

  datatype Step = Step(timestamp: int, text: string)

  datatype Message = Message(id: Option<string>, sender: string, body: string, ts: int)

  // What is appended to the transcript: a box of sealed steps, or a message.
  datatype Drawn = Sealed(steps: seq<Step>) | Posted(m: Message)

  // Microseconds against seconds; a step without a time sorts first.
  predicate Precedes(s: Step, ts: int) {
    s.timestamp <= 0 || s.timestamp / 1_000_000 <= ts
  }

  // A step with a time precedes a message exactly when the message's second is not
  // over before the step.
  lemma PrecedesMeans(s: Step, ts: int)
    ensures Precedes(s, ts) <==> s.timestamp <= 0 || s.timestamp < (ts + 1) * 1_000_000
  {
  }

  // How many steps at the front precede ts, one after another.
  function Run(steps: seq<Step>, ts: int): (n: nat)
    ensures n <= |steps|
    ensures forall i :: 0 <= i < n ==> Precedes(steps[i], ts)
    ensures n < |steps| ==> !Precedes(steps[n], ts)
  {
    if steps == [] || !Precedes(steps[0], ts) then 0 else 1 + Run(steps[1..], ts)
  }

  // clawt_gtk_steps_append_sealed draws nothing for an empty stretch.
  function Box(steps: seq<Step>): seq<Drawn> {
    if steps == [] then [] else [Sealed(steps)]
  }

  // A message under the steps that led to it.
  function Stretch(steps: seq<Step>, m: Message): seq<Drawn> {
    Box(steps) + [Posted(m)]
  }

  function Merge(messages: seq<Message>, steps: seq<Step>): seq<Drawn>
    decreases |messages|
  {
    if messages == [] then Box(steps)
    else
      var n := Run(steps, messages[0].ts);
      Stretch(steps[..n], messages[0]) + Merge(messages[1..], steps[n..])
  }

  function Ids(messages: seq<Message>): set<string> {
    set m | m in messages && m.id.Some? :: m.id.value
  }

  // The inner loop: where the stretch of steps before a message ends.
  method StretchEnd(steps: seq<Step>, at: nat, ts: int) returns (run: nat)
    requires at <= |steps|
    ensures run == at + Run(steps[at..], ts)
  {
    run := at;
    while run < |steps| && Precedes(steps[run], ts)
      invariant at <= run <= |steps|
      invariant Run(steps[at..], ts) == run - at + Run(steps[run..], ts)
    {
      assert steps[run..][1..] == steps[run + 1..];
      run := run + 1;
    }
  }

  lemma MergeStep(messages: seq<Message>, steps: seq<Step>, i: nat, at: nat, run: nat)
    requires i < |messages| && at <= |steps| && run == at + Run(steps[at..], messages[i].ts)
    ensures Merge(messages[i..], steps[at..]) ==
      Stretch(steps[at..run], messages[i]) + Merge(messages[i + 1..], steps[run..])
  {
    var ms, ss, n := messages[i..], steps[at..], run - at;
    assert ms[0] == messages[i] && ms[1..] == messages[i + 1..];
    assert ss[..n] == steps[at..run] && ss[n..] == steps[run..];
    assert Merge(ms, ss) == Stretch(ss[..n], ms[0]) + Merge(ms[1..], ss[n..]);
  }

  lemma MergeOfNone(steps: seq<Step>)
    ensures Merge([], steps) == Box(steps)
  {
  }

  // One turn of the loop moves a stretch from what is to come to what is drawn.
  lemma DrawStep(drawn: seq<Drawn>, messages: seq<Message>, steps: seq<Step>, i: nat, at: nat, run: nat)
    requires i < |messages| && at <= |steps| && run == at + Run(steps[at..], messages[i].ts)
    ensures drawn + Merge(messages[i..], steps[at..]) ==
      (drawn + Box(steps[at..run]) + [Posted(messages[i])]) + Merge(messages[i + 1..], steps[run..])
  {
    MergeStep(messages, steps, i, at, run);
    Regroup(drawn, Box(steps[at..run]), [Posted(messages[i])], Merge(messages[i + 1..], steps[run..]));
  }

  // The loop with its two indices, as it appends to the transcript.
  method DrawHistory(messages: seq<Message>, steps: seq<Step>) returns (drawn: seq<Drawn>, shown: set<string>)
    ensures drawn == Merge(messages, steps) && shown == Ids(messages)
  {
    hide MessagesOf, StepsOf, Merge, Box, Run;
    drawn, shown := [], {};
    var at: nat := 0;
    ghost var goal := Merge(messages, steps);
    assert messages[0..] == messages && steps[0..] == steps && [] + goal == goal;
    for i := 0 to |messages|
      invariant at <= |steps|
      invariant drawn + Merge(messages[i..], steps[at..]) == goal
      invariant shown == Ids(messages[..i])
    {
      var m := messages[i];
      var run := StretchEnd(steps, at, m.ts);
      DrawStep(drawn, messages, steps, i, at, run);
      var stretch := AppendSealed(steps, at, run);
      drawn := drawn + stretch + [Posted(m)];
      IdsPush(messages, i);
      if m.id.Some? {
        shown := shown + {m.id.value};
      }
      at := run;
    }
    assert messages[|messages|..] == [];
    MergeOfNone(steps[at..]);
    var last := AppendSealed(steps, at, |steps|);
    assert steps[at..|steps|] == steps[at..] && messages[..|messages|] == messages;
    drawn := drawn + last;
  }

  // clawt_gtk_steps_append_sealed, as what it appends: one box at most, with those
  // steps and no message, and none when there are none.
  method AppendSealed(steps: seq<Step>, from: nat, end: nat) returns (drawn: seq<Drawn>)
    requires from <= end <= |steps|
    ensures drawn == Box(steps[from..end]) && |drawn| <= 1 && (drawn == [] <==> from == end)
    ensures StepsOf(drawn) == steps[from..end] && MessagesOf(drawn) == []
  {
    BoxHolds(steps[from..end]);
    if end <= from {
      return [];
    }
    return [Sealed(steps[from..end])];
  }

  lemma Regroup(a: seq<Drawn>, b: seq<Drawn>, c: seq<Drawn>, d: seq<Drawn>)
    ensures (a + b + c) + d == a + ((b + c) + d)
  {
  }

  lemma IdsPush(ms: seq<Message>, i: nat)
    requires i < |ms|
    ensures Ids(ms[..i + 1]) == Ids(ms[..i]) + (if ms[i].id.Some? then {ms[i].id.value} else {})
  {
    assert ms[..i + 1] == ms[..i] + [ms[i]];
    assert forall x :: x in ms[..i + 1] <==> x in ms[..i] || x == ms[i];
  }

  // ---------------------------------------------------------------------
  // Nothing is lost, repeated or reordered.

  function MessageIn(d: Drawn): seq<Message> {
    if d.Posted? then [d.m] else []
  }

  function StepsIn(d: Drawn): seq<Step> {
    if d.Sealed? then d.steps else []
  }

  function MessagesOf(drawn: seq<Drawn>): seq<Message> {
    if drawn == [] then [] else MessageIn(drawn[0]) + MessagesOf(drawn[1..])
  }

  function StepsOf(drawn: seq<Drawn>): seq<Step> {
    if drawn == [] then [] else StepsIn(drawn[0]) + StepsOf(drawn[1..])
  }

  lemma {:induction false} MessagesAppend(a: seq<Drawn>, b: seq<Drawn>)
    ensures MessagesOf(a + b) == MessagesOf(a) + MessagesOf(b)
    decreases |a|
  {
    if a == [] {
      assert a + b == b;
    } else {
      MessagesAppend(a[1..], b);
      HeadAndTail(a, b);
      Assoc(MessageIn(a[0]), MessagesOf(a[1..]), MessagesOf(b));
    }
  }

  lemma {:induction false} StepsAppend(a: seq<Drawn>, b: seq<Drawn>)
    ensures StepsOf(a + b) == StepsOf(a) + StepsOf(b)
    decreases |a|
  {
    if a == [] {
      assert a + b == b;
    } else {
      StepsAppend(a[1..], b);
      HeadAndTail(a, b);
      Assoc(StepsIn(a[0]), StepsOf(a[1..]), StepsOf(b));
    }
  }

  lemma BoxHolds(steps: seq<Step>)
    ensures MessagesOf(Box(steps)) == [] && StepsOf(Box(steps)) == steps && Items(Box(steps)) == StepItems(steps)
  {
    if steps != [] {
      assert [Sealed(steps)][1..] == [];
      assert StepItems(steps) + [] == StepItems(steps);
    }
  }

  lemma StretchHolds(steps: seq<Step>, m: Message)
    ensures MessagesOf(Stretch(steps, m)) == [m] && StepsOf(Stretch(steps, m)) == steps
    ensures Items(Stretch(steps, m)) == StepItems(steps) + [OfMessage(m)]
  {
    hide MessagesOf, StepsOf, Items, StepItems, Box;
    var last := [Posted(m)];
    PostedHolds(m);
    BoxHolds(steps);
    MessagesAppend(Box(steps), last);
    StepsAppend(Box(steps), last);
    ItemsAppend(Box(steps), last);
    assert [] + [m] == [m] && steps + [] == steps;
  }

  lemma PostedHolds(m: Message)
    ensures MessagesOf([Posted(m)]) == [m] && StepsOf([Posted(m)]) == [] && Items([Posted(m)]) == [OfMessage(m)]
  {
    assert [Posted(m)][1..] == [];
  }

  lemma Halves(steps: seq<Step>, n: nat)
    requires n <= |steps|
    ensures steps[..n] + steps[n..] == steps
  {
  }

  lemma {:induction false} MergeKeepsMessages(messages: seq<Message>, steps: seq<Step>)
    ensures MessagesOf(Merge(messages, steps)) == messages
    decreases |messages|
  {
    if messages == [] {
      BoxHolds(steps);
    } else {
      var n := Run(steps, messages[0].ts);
      MergeKeepsMessages(messages[1..], steps[n..]);
      assert [messages[0]] + messages[1..] == messages;
      StretchHolds(steps[..n], messages[0]);
      MessagesAppend(Stretch(steps[..n], messages[0]), Merge(messages[1..], steps[n..]));
    }
  }

  lemma {:induction false} MergeKeepsSteps(messages: seq<Message>, steps: seq<Step>)
    ensures StepsOf(Merge(messages, steps)) == steps
    decreases |messages|
  {
    if messages == [] {
      BoxHolds(steps);
    } else {
      var n := Run(steps, messages[0].ts);
      Halves(steps, n);
      MergeKeepsSteps(messages[1..], steps[n..]);
      StretchHolds(steps[..n], messages[0]);
      StepsAppend(Stretch(steps[..n], messages[0]), Merge(messages[1..], steps[n..]));
    }
  }

  // Whatever the times: every message once, in order, and every step once, in order.
  lemma MergeIsInterleaving(messages: seq<Message>, steps: seq<Step>)
    ensures MessagesOf(Merge(messages, steps)) == messages
    ensures StepsOf(Merge(messages, steps)) == steps
  {
    MergeKeepsMessages(messages, steps);
    MergeKeepsSteps(messages, steps);
  }

  // ---------------------------------------------------------------------
  // Time order.

  // One thing on the screen.
  datatype Item = OfStep(s: Step) | OfMessage(m: Message)

  function StepItems(steps: seq<Step>): seq<Item> {
    seq(|steps|, i requires 0 <= i < |steps| => OfStep(steps[i]))
  }

  function Items(drawn: seq<Drawn>): seq<Item> {
    if drawn == [] then []
    else DrawnItems(drawn[0]) + Items(drawn[1..])
  }

  function DrawnItems(d: Drawn): seq<Item> {
    match d
    case Sealed(steps) => StepItems(steps)
    case Posted(m) => [OfMessage(m)]
  }

  // a may stand above b. Between a step and a message this is exactly
  // clawt_turn_step_precedes: the step is above the messages it precedes and
  // below the others.
  predicate MayPrecede(a: Item, b: Item) {
    match (a, b)
    case (OfStep(s), OfStep(t)) => s.timestamp <= t.timestamp
    case (OfMessage(m), OfMessage(n)) => m.ts <= n.ts
    case (OfStep(s), OfMessage(m)) => Precedes(s, m.ts)
    case (OfMessage(m), OfStep(s)) => !Precedes(s, m.ts)
  }

  ghost predicate InOrder(items: seq<Item>) {
    forall i, j :: 0 <= i < j < |items| ==> MayPrecede(items[i], items[j])
  }

  ghost predicate SortedMessages(ms: seq<Message>) {
    forall i, j :: 0 <= i < j < |ms| ==> ms[i].ts <= ms[j].ts
  }

  ghost predicate SortedSteps(steps: seq<Step>) {
    forall i, j :: 0 <= i < j < |steps| ==> steps[i].timestamp <= steps[j].timestamp
  }

  lemma {:induction false} ItemsAppend(a: seq<Drawn>, b: seq<Drawn>)
    ensures Items(a + b) == Items(a) + Items(b)
    decreases |a|
  {
    if a == [] {
      assert a + b == b;
    } else {
      ItemsAppend(a[1..], b);
      assert (a + b)[1..] == a[1..] + b;
      assert DrawnItems(a[0]) + (Items(a[1..]) + Items(b)) == (DrawnItems(a[0]) + Items(a[1..])) + Items(b);
    }
  }

  // The screen, stretch by stretch.
  lemma MergeItems(messages: seq<Message>, steps: seq<Step>)
    ensures messages == [] ==> Items(Merge(messages, steps)) == StepItems(steps)
    ensures messages != [] ==>
      var n := Run(steps, messages[0].ts);
      Items(Merge(messages, steps)) ==
        (StepItems(steps[..n]) + [OfMessage(messages[0])]) + Items(Merge(messages[1..], steps[n..]))
  {
    if messages == [] {
      BoxHolds(steps);
    } else {
      var n := Run(steps, messages[0].ts);
      StretchHolds(steps[..n], messages[0]);
      ItemsAppend(Stretch(steps[..n], messages[0]), Merge(messages[1..], steps[n..]));
    }
  }

  ghost predicate From(messages: seq<Message>, steps: seq<Step>, item: Item) {
    match item
    case OfStep(s) => s in steps
    case OfMessage(m) => m in messages
  }

  lemma {:induction false} MergeItemsFrom(messages: seq<Message>, steps: seq<Step>)
    ensures forall i :: 0 <= i < |Items(Merge(messages, steps))| ==> From(messages, steps, Items(Merge(messages, steps))[i])
    decreases |messages|
  {
    MergeItems(messages, steps);
    if messages != [] {
      var n := Run(steps, messages[0].ts);
      var head := StepItems(steps[..n]) + [OfMessage(messages[0])];
      var tail := Items(Merge(messages[1..], steps[n..]));
      MergeItemsFrom(messages[1..], steps[n..]);
      forall j | 0 <= j < |tail| ensures From(messages, steps, tail[j]) {
        assert From(messages[1..], steps[n..], tail[j]);
      }
      forall i | 0 <= i < |head| ensures From(messages, steps, head[i]) {
        assert i < n ==> head[i] == OfStep(steps[i]);
      }
      assert Items(Merge(messages, steps)) == head + tail;
    }
  }

  lemma JoinInOrder(a: seq<Item>, b: seq<Item>)
    requires InOrder(a) && InOrder(b)
    requires forall i, j :: 0 <= i < |a| && 0 <= j < |b| ==> MayPrecede(a[i], b[j])
    ensures InOrder(a + b)
  {
  }

  lemma RunSplits(steps: seq<Step>, ts: int)
    requires SortedSteps(steps)
    ensures var n := Run(steps, ts);
      (forall s :: s in steps[..n] ==> Precedes(s, ts)) &&
      (forall s :: s in steps[n..] ==> !Precedes(s, ts)) &&
      (forall s, t :: s in steps[..n] && t in steps[n..] ==> s.timestamp <= t.timestamp)
  {
  }

  // With messages and steps each in time order, so is the screen, and every
  // step stands before the first message it precedes.
  lemma {:induction false} MergeIsInOrder(messages: seq<Message>, steps: seq<Step>)
    requires SortedMessages(messages) && SortedSteps(steps)
    ensures InOrder(Items(Merge(messages, steps)))
    decreases |messages|
  {
    MergeItems(messages, steps);
    if messages != [] {
      var m := messages[0];
      var n := Run(steps, m.ts);
      var tail := Items(Merge(messages[1..], steps[n..]));
      MergeIsInOrder(messages[1..], steps[n..]);
      MergeItemsFrom(messages[1..], steps[n..]);
      HeadInOrder(messages, steps, tail);
    }
  }

  // A stretch and the message below it are in order.
  lemma StretchInOrder(steps: seq<Step>, m: Message)
    requires SortedSteps(steps) && forall s :: s in steps ==> Precedes(s, m.ts)
    ensures InOrder(StepItems(steps) + [OfMessage(m)])
  {
    var head := StepItems(steps) + [OfMessage(m)];
    forall i, j | 0 <= i < j < |head| ensures MayPrecede(head[i], head[j]) {
      assert head[i] == OfStep(steps[i]) && steps[i] in steps;
      assert j < |steps| ==> head[j] == OfStep(steps[j]);
    }
  }

  // What stands in a stretch, or right below it, is above everything that follows.
  lemma AboveTail(messages: seq<Message>, steps: seq<Step>, n: nat, a: Item, b: Item)
    requires SortedMessages(messages) && SortedSteps(steps) && messages != [] && n == Run(steps, messages[0].ts)
    requires (a.OfStep? && a.s in steps[..n]) || a == OfMessage(messages[0])
    requires From(messages[1..], steps[n..], b)
    ensures MayPrecede(a, b)
  {
    RunSplits(steps, messages[0].ts);
    if b.OfMessage? {
      var k :| 0 <= k < |messages[1..]| && messages[1..][k] == b.m;
      assert messages[k + 1] == b.m;
    }
  }

  // The first stretch is in order, and above everything that follows.
  lemma HeadInOrder(messages: seq<Message>, steps: seq<Step>, tail: seq<Item>)
    requires SortedMessages(messages) && SortedSteps(steps) && messages != [] && InOrder(tail)
    requires var n := Run(steps, messages[0].ts);
      forall j :: 0 <= j < |tail| ==> From(messages[1..], steps[n..], tail[j])
    ensures var n := Run(steps, messages[0].ts);
      InOrder((StepItems(steps[..n]) + [OfMessage(messages[0])]) + tail)
  {
    var m := messages[0];
    var n := Run(steps, m.ts);
    RunSplits(steps, m.ts);
    StretchInOrder(steps[..n], m);
    var head := StepItems(steps[..n]) + [OfMessage(m)];
    forall i, j | 0 <= i < |head| && 0 <= j < |tail| ensures MayPrecede(head[i], tail[j]) {
      if i < n {
        assert head[i] == OfStep(steps[..n][i]) && steps[..n][i] in steps[..n];
      }
      AboveTail(messages, steps, n, head[i], tail[j]);
    }
    JoinInOrder(head, tail);
  }
}
