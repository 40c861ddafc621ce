/** `CopyOnWrite.h`: readers that are never disturbed by writers running inside them. Callbacks are scripts
    that look at their value, change it when they may, and read and write again from inside. */
module CopyOnWrite {

  datatype Step<!T> =
    | Look
    | Update(f: T -> T)
    | Read(reader: seq<Step<T>>)
    | Write(writer: seq<Step<T>>)

  datatype Event<T> = Seen(value: T) | ReadRefused | WriteRefused

  /** Who runs a script, and so what it may touch. */
  datatype Mode = Outside | Reading | Writing

  predicate Typed<T>(script: seq<Step<T>>, mode: Mode) {
    forall i :: 0 <= i < |script| ==>
      match script[i]
      case Look => !mode.Outside?
      case Update(_) => mode.Writing?
      case Read(body) => Typed(body, Reading)
      case Write(body) => Typed(body, Writing)
  }

  // The meaning of nested callbacks, without locks, copies or sharing

  /** A reader, or code outside, looks at a snapshot; reads and writes in it work on the current value. */
  function Run<T>(script: seq<Step<T>>, snapshot: T, current: T): (T, seq<Event<T>>)
    decreases script
  {
    if script == [] then (current, [])
    else
      var first := RunOne(script[0], snapshot, current);
      var rest := Run(script[1..], snapshot, first.0);
      (rest.0, first.1 + rest.1)
  }

  function RunOne<T>(step: Step<T>, snapshot: T, current: T): (T, seq<Event<T>>)
    decreases step
  {
    match step
    case Look => (current, [Seen(snapshot)])
    case Update(_) => (current, [])
    case Read(body) => Run(body, current, current)
    case Write(body) => RunWriter(body, current)
  }

  /** A writer works on the current value, and nothing succeeds inside it. */
  function RunWriter<T>(script: seq<Step<T>>, current: T): (T, seq<Event<T>>) {
    if script == [] then (current, [])
    else
      var first := WriteOne(script[0], current);
      var rest := RunWriter(script[1..], first.0);
      (rest.0, first.1 + rest.1)
  }

  function WriteOne<T>(step: Step<T>, current: T): (T, seq<Event<T>>) {
    match step
    case Look => (current, [Seen(current)])
    case Update(f) => (f(current), [])
    case Read(_) => (current, [ReadRefused])
    case Write(_) => (current, [WriteRefused])
  }

  /** The writers that succeed, in the order in which they run. */
  function Writers<T>(script: seq<Step<T>>): seq<seq<Step<T>>>
    decreases script
  {
    if script == [] then [] else WritersOf(script[0]) + Writers(script[1..])
  }

  function WritersOf<T>(step: Step<T>): seq<seq<Step<T>>>
    decreases step
  {
    match step
    case Look => []
    case Update(_) => []
    case Read(body) => Writers(body)
    case Write(body) => [body]
  }

  /** One writer after the other, each starting from the result of the one before. */
  function Serially<T>(writers: seq<seq<Step<T>>>, value: T): T {
    if writers == [] then value else Serially(writers[1..], RunWriter(writers[0], value).0)
  }

  lemma {:induction false} SeriallySplits<T>(a: seq<seq<Step<T>>>, b: seq<seq<Step<T>>>, value: T)
    ensures Serially(a + b, value) == Serially(b, Serially(a, value))
  {
    if a == [] {
      assert a + b == b;
    } else {
      assert (a + b)[1..] == a[1..] + b;
      SeriallySplits(a[1..], b, RunWriter(a[0], value).0);
    }
  }

  /** However reads nest, the value ends as if the writers had run one after the other. */
  lemma {:induction false} NestingIsSerial<T>(script: seq<Step<T>>, snapshot: T, current: T)
    ensures Run(script, snapshot, current).0 == Serially(Writers(script), current)
    decreases script
  {
    if script != [] {
      SeriallySplits(WritersOf(script[0]), Writers(script[1..]), current);
      match script[0] {
        case Read(body) =>
          NestingIsSerial(body, current, current);
          NestingIsSerial(script[1..], snapshot, Run(body, current, current).0);
        case Write(body) =>
          NestingIsSerial(script[1..], snapshot, RunWriter(body, current).0);
        case _ =>
          NestingIsSerial(script[1..], snapshot, current);
      }
    }
  }

  // What callbacks are shown

  /** The changes a writer makes to its value, in order. */
  function Changes<T>(script: seq<Step<T>>): seq<T -> T> {
    if script == [] then []
    else (if script[0].Update? then [script[0].f] else []) + Changes(script[1..])
  }

  function Applied<T>(changes: seq<T -> T>, value: T): T {
    if changes == [] then value else Applied(changes[1..], changes[0](value))
  }

  /** How many events a step makes, and a script; which step makes which does not depend on any value. */
  function Size<T>(step: Step<T>): nat
    decreases step
  {
    match step
    case Look => 1
    case Update(_) => 0
    case Read(body) => Sizes(body)
    case Write(body) => WriterSizes(body)
  }

  function Sizes<T>(script: seq<Step<T>>): nat
    decreases script
  {
    if script == [] then 0 else Size(script[0]) + Sizes(script[1..])
  }

  function WriterSizes<T>(script: seq<Step<T>>): nat {
    if script == [] then 0 else (if script[0].Update? then 0 else 1) + WriterSizes(script[1..])
  }

  /** The events of step `i`. */
  function EventsOf<T>(script: seq<Step<T>>, i: nat, log: seq<Event<T>>): seq<Event<T>>
    requires i < |script| && Sizes(script[..i]) + Size(script[i]) <= |log|
  {
    log[Sizes(script[..i])..Sizes(script[..i]) + Size(script[i])]
  }

  /** Snapshot isolation. A callback that looks is always shown `view`. What starts inside it starts from the value
      that the writers before leave: a reader is shown that value however often it looks, and a writer what its own
      changes so far have made of it. */
  ghost predicate Isolated<T>(script: seq<Step<T>>, view: T, start: T, log: seq<Event<T>>)
    decreases script
  {
    && |log| == Sizes(script)
    && forall i :: 0 <= i < |script| ==> StepIsolated(script, i, view, start, log)
  }

  ghost predicate StepIsolated<T>(script: seq<Step<T>>, i: nat, view: T, start: T, log: seq<Event<T>>)
    requires i < |script|
    decreases script, 0
  {
    && Sizes(script[..i]) + Size(script[i]) <= |log|
    && var now, events := Serially(Writers(script[..i]), start), EventsOf(script, i, log);
       match script[i]
       case Look => events == [Seen(view)]
       case Update(_) => true
       case Read(body) => Isolated(body, now, now, events)
       case Write(body) => WriterIsolated(body, now, events)
  }

  ghost predicate WriterIsolated<T>(script: seq<Step<T>>, start: T, log: seq<Event<T>>) {
    && |log| == WriterSizes(script)
    && forall i :: 0 <= i < |script| && !script[i].Update? ==>
         && WriterSizes(script[..i]) < |log|
         && log[WriterSizes(script[..i])] ==
              match script[i]
              case Look => Seen(Applied(Changes(script[..i]), start))
              case Read(_) => ReadRefused
              case Write(_) => WriteRefused
  }

  lemma {:induction false} RunIsIsolated<T>(script: seq<Step<T>>, view: T, start: T)
    ensures Isolated(script, view, start, Run(script, view, start).1)
    decreases script, 1
  {
    if script != [] {
      var first := RunOne(script[0], view, start);
      var rest := Run(script[1..], view, first.0);
      RunOneIsIsolated(script[0], view, start);
      RunIsIsolated(script[1..], view, first.0);
      var log := first.1 + rest.1;
      forall i | 0 <= i < |script| ensures StepIsolated(script, i, view, start, log) {
        if i == 0 {
          assert script[..0] == [] && log[0..Size(script[0])] == first.1;
          assert Serially(Writers(script[..0]), start) == start;
        } else {
          assert StepIsolated(script[1..], i - 1, view, first.0, rest.1);
          StepLater(script, i, view, start, first.0, first.1, rest.1);
        }
      }
    }
  }

  lemma {:induction false} RunOneIsIsolated<T>(step: Step<T>, view: T, start: T)
    ensures |RunOne(step, view, start).1| == Size(step)
    ensures RunOne(step, view, start).0 == Serially(WritersOf(step), start)
    ensures step.Read? ==> Isolated(step.reader, start, start, RunOne(step, view, start).1)
    ensures step.Write? ==> WriterIsolated(step.writer, start, RunOne(step, view, start).1)
    decreases step, 0
  {
    match step
    case Read(body) =>
      RunIsIsolated(body, start, start);
      NestingIsSerial(body, start, start);
    case Write(body) =>
      WriterIsIsolated(body, start);
      assert [body][1..] == [];
    case _ =>
  }

  /** A step keeps its events when another one comes first. */
  lemma {:induction false} StepLater<T>(script: seq<Step<T>>, i: nat, view: T, start: T, next: T,
                                              first: seq<Event<T>>, rest: seq<Event<T>>)
    requires 0 < i < |script| && |first| == Size(script[0]) && next == Serially(WritersOf(script[0]), start)
    requires StepIsolated(script[1..], i - 1, view, next, rest)
    ensures StepIsolated(script, i, view, start, first + rest)
  {
    var tail := script[1..];
    assert script[..i][0] == script[0] && script[..i][1..] == tail[..i - 1] && tail[i - 1] == script[i];
    SeriallySplits(WritersOf(script[0]), Writers(tail[..i - 1]), start);
    var from, size := Sizes(tail[..i - 1]), Size(script[i]);
    assert (first + rest)[|first| + from..|first| + from + size] == rest[from..from + size];
    hide Isolated;
    hide WriterIsolated;
  }

  lemma {:induction false} WriterIsIsolated<T>(script: seq<Step<T>>, start: T)
    ensures WriterIsolated(script, start, RunWriter(script, start).1)
    ensures RunWriter(script, start).0 == Applied(Changes(script), start)
  {
    if script != [] {
      var first := WriteOne(script[0], start);
      var tail := script[1..];
      var rest := RunWriter(tail, first.0);
      WriterIsIsolated(tail, first.0);
      forall i | 0 < i < |script|
        ensures Changes(script[..i]) == (if script[0].Update? then [script[0].f] else []) + Changes(tail[..i - 1])
        ensures WriterSizes(script[..i]) == |first.1| + WriterSizes(tail[..i - 1]) && script[i] == tail[i - 1]
        ensures Applied(Changes(script[..i]), start) == Applied(Changes(tail[..i - 1]), first.0)
      {
        assert script[..i][0] == script[0] && script[..i][1..] == tail[..i - 1];
        OneChange(script[0], Changes(tail[..i - 1]), start);
      }
      OneChange(script[0], Changes(tail), start);
      assert script[..0] == [];
    }
  }

  lemma {:induction false} OneChange<T>(step: Step<T>, changes: seq<T -> T>, start: T)
    ensures Applied((if step.Update? then [step.f] else []) + changes, start) ==
            Applied(changes, WriteOne(step, start).0)
  {
    if step.Update? {
      assert ([step.f] + changes)[1..] == changes;
    } else {
      assert [] + changes == changes;
    }
  }

  /** One turn of the loop over a script. */
  lemma {:induction false} RunNext<T>(script: seq<Step<T>>, i: nat, snapshot: T, current: T, log: seq<Event<T>>)
    requires i < |script|
    ensures var first, now := RunOne(script[i], snapshot, current), Run(script[i..], snapshot, current);
            var next := Run(script[i + 1..], snapshot, first.0);
            now.0 == next.0 && log + now.1 == log + first.1 + next.1
  {
    assert script[i..][1..] == script[i + 1..];
    hide RunOne;
  }

  lemma {:induction false} WriteNext<T>(script: seq<Step<T>>, i: nat, current: T, log: seq<Event<T>>)
    requires i < |script|
    ensures var first, now := WriteOne(script[i], current), RunWriter(script[i..], current);
            var next := RunWriter(script[i + 1..], first.0);
            now.0 == next.0 && log + now.1 == log + first.1 + next.1
  {
    assert script[i..][1..] == script[i + 1..];
    hide WriteOne;
  }

  lemma {:induction false} NothingLeft<T>(script: seq<Step<T>>, snapshot: T, current: T, log: seq<Event<T>>)
    ensures Run(script[|script|..], snapshot, current).0 == current
    ensures log + Run(script[|script|..], snapshot, current).1 == log
  {
  }

  lemma {:induction false} NothingLeftToWrite<T>(script: seq<Step<T>>, current: T, log: seq<Event<T>>)
    ensures RunWriter(script[|script|..], current).0 == current
    ensures log + RunWriter(script[|script|..], current).1 == log
  {
  }

  // The implementation

  class CopyOnWriteValue<T> {
    var value: T
    var readers: nat
    var writer: bool

    constructor (v: T)
      ensures value == v && readers == 0 && !writer
    {
      value, readers, writer := v, 0, false;
    }

    predicate HasUsers()
      reads this
    {
      readers > 0 || writer
    }

    method LockForReading()
      requires !writer
      modifies `readers
      ensures readers == old(readers) + 1
    {
      readers := readers + 1;
    }

    method UnlockForReading()
      requires readers > 0
      modifies `readers
      ensures readers == old(readers) - 1
    {
      readers := readers - 1;
    }

    method LockForWriting()
      requires !HasUsers()
      modifies `writer
      ensures writer
    {
      writer := true;
    }

    method UnlockForWriting()
      requires writer
      modifies `writer
      ensures !writer
    {
      writer := false;
    }
  }

  class CopyOnWrite<T> {
    var held: CopyOnWriteValue<T>
    /** Every value object made so far; readers may still hold old ones. */
    ghost var made: set<CopyOnWriteValue<T>>

    ghost predicate Valid()
      reads this
    {
      held in made
    }

    constructor (v: T)
      ensures Valid() && fresh(made) && held.value == v && !held.HasUsers()
    {
      held := new CopyOnWriteValue(v);
      new;
      made := {held};
    }

    predicate CanRead()
      reads this, held
    {
      !held.writer
    }

    predicate CanWrite()
      reads this, held
    {
      !held.writer
    }

    /** Whatever ran, every lock is as before, and what someone is reading has not changed. */
    twostate predicate Undisturbed()
      reads this, made
    {
      && old(made) <= made && fresh(made - old(made))
      && (forall c :: c in old(made) ==> c.readers == old(c.readers) && c.writer == old(c.writer))
      && (forall c :: c in old(made) && c.readers > 0 ==> c.value == old(c.value))
    }

    /** What a reader's callback, or code outside, does. */
    method RunSteps(script: seq<Step<T>>, view: CopyOnWriteValue<T>, mode: Mode) returns (log: seq<Event<T>>)
      requires Valid() && !held.writer && view in made && !mode.Writing? && Typed(script, mode)
      requires mode.Reading? ==> view.readers > 0
      modifies this, made
      ensures Valid() && !held.writer && Undisturbed()
      ensures (held.value, log) == Run(script, old(view.value), old(held.value))
      decreases script, 0
    {
      hide Run;
      log := [];
      ghost var snapshot := view.value;
      ghost var all := Run(script, snapshot, held.value);
      assert script[0..] == script;
      for i := 0 to |script|
        invariant Valid() && !held.writer && Undisturbed()
        invariant mode.Reading? ==> view.readers > 0
        invariant all.0 == Run(script[i..], snapshot, held.value).0
        invariant all.1 == log + Run(script[i..], snapshot, held.value).1
      {
        RunNext(script, i, snapshot, held.value, log);
        match script[i]
        case Look => log := log + [Seen(view.value)];
        case Update(_) =>
        case Read(body) =>
          var more := TryRead(body);
          log := log + more;
        case Write(body) =>
          var more := TryWrite(body);
          log := log + more;
      }
      NothingLeft(script, snapshot, held.value, log);
    }

    /** Nothing but the value being written differs. */
    twostate predicate OnlyWritten()
      reads this, made
    {
      && held == old(held) && made == old(made)
      && (forall c :: c in made ==> c.readers == old(c.readers) && c.writer == old(c.writer))
      && (forall c :: c in made && c != held ==> c.value == old(c.value))
    }

    /** What a writer's callback does. */
    method RunWriterSteps(script: seq<Step<T>>) returns (log: seq<Event<T>>)
      requires Valid() && held.writer && Typed(script, Writing)
      modifies this, made
      ensures Valid() && held.writer && OnlyWritten()
      ensures (held.value, log) == RunWriter(script, old(held.value))
      decreases script, 0
    {
      hide RunWriter;
      log := [];
      ghost var all := RunWriter(script, held.value);
      assert script[0..] == script;
      for i := 0 to |script|
        invariant Valid() && held.writer && OnlyWritten()
        invariant all.0 == RunWriter(script[i..], held.value).0
        invariant all.1 == log + RunWriter(script[i..], held.value).1
      {
        WriteNext(script, i, held.value, log);
        match script[i]
        case Look => log := log + [Seen(held.value)];
        case Update(f) =>
          held.value := f(held.value);
          assert log + [] == log;
        case Read(body) =>
          var more := TryRead(body);
          log := log + more;
        case Write(body) =>
          var more := TryWrite(body);
          log := log + more;
      }
      NothingLeftToWrite(script, held.value, log);
    }

    /** `Read` with a reader only. */
    method ReadWith(body: seq<Step<T>>) returns (log: seq<Event<T>>)
      requires Valid() && !held.writer && Typed(body, Reading)
      modifies this, made
      ensures Valid() && !held.writer && Undisturbed()
      ensures (held.value, log) == Run(body, old(held.value), old(held.value))
      ensures Isolated(body, old(held.value), old(held.value), log)
      ensures held.value == Serially(Writers(body), old(held.value))
      decreases body, 1
    {
      hide Run;
      hide Isolated;
      RunIsIsolated(body, held.value, held.value);
      NestingIsSerial(body, held.value, held.value);
      var cowValue := held;
      cowValue.LockForReading();
      log := RunSteps(body, cowValue, Reading);
      cowValue.UnlockForReading();
    }

    /** `Read` with an error callback. */
    method TryRead(body: seq<Step<T>>) returns (log: seq<Event<T>>)
      requires Valid() && Typed(body, Reading)
      modifies this, made
      ensures Valid() && Undisturbed() && held.writer == old(held.writer)
      ensures if old(held.writer) then log == [ReadRefused] && OnlyWritten() && held.value == old(held.value)
              else (held.value, log) == Run(body, old(held.value), old(held.value))
      decreases body, 2
    {
      hide Run;
      if !CanRead() {
        return [ReadRefused];
      }
      log := ReadWith(body);
    }

    /** `Write` with a writer only: a copy is made exactly when somebody is reading. */
    method WriteWith(body: seq<Step<T>>) returns (log: seq<Event<T>>)
      requires Valid() && !held.writer && Typed(body, Writing)
      modifies this, made
      ensures Valid() && !held.writer && Undisturbed()
      ensures held == old(held) <==> old(held.readers) == 0
      ensures (held.value, log) == RunWriter(body, old(held.value))
      ensures WriterIsolated(body, old(held.value), log) && held.value == Applied(Changes(body), old(held.value))
      decreases body, 1
    {
      hide RunWriter;
      hide WriterIsolated;
      WriterIsIsolated(body, held.value);
      if held.readers > 0 {
        held := new CopyOnWriteValue(held.value);
        made := made + {held};
      }
      var cowValue := held;
      cowValue.LockForWriting();
      log := RunWriterSteps(body);
      cowValue.UnlockForWriting();
    }

    /** `Write` with an error callback. */
    method TryWrite(body: seq<Step<T>>) returns (log: seq<Event<T>>)
      requires Valid() && Typed(body, Writing)
      modifies this, made
      ensures Valid() && Undisturbed() && held.writer == old(held.writer)
      ensures if old(held.writer) then log == [WriteRefused] && OnlyWritten() && held.value == old(held.value)
              else (held.value, log) == RunWriter(body, old(held.value))
      decreases body, 2
    {
      hide RunWriter;
      if !CanWrite() {
        return [WriteRefused];
      }
      log := WriteWith(body);
    }
  }
}
