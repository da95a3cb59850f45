/** The latest-frame double buffer of cam_task.c as a step system. The capture task copies a frame byte
    by byte into the buffer that is not published and then publishes it; an upload task takes a snapshot
    and reads the published buffer with no lock held, so capture steps fall between any two of its reads.

    A stored frame is named by its ordinal, 1 for the first store. The 32-bit s_latest_seq is the ordinal
    modulo 2^32, so no result here assumes that it does not wrap. */
module DoubleBuffer {
  import opened Numerals

  const SIZE: nat := 32 * 1024

  /** A latest_frame_store in progress: the first `done` bytes of `src` are copied. */
  datatype Store = Store(src: string, done: nat)

  datatype State = State(
    bufs: seq<string>,          // the two static buffers
    idx: nat,                   // s_latest_buf_idx
    len: nat,                   // s_latest_jpeg_len
    published: seq<string>,     // every frame published so far; the last one has ordinal |published|
    store: Option<Store>)

  datatype Action = Begin(src: string) | Copy | Publish

  predicate Enabled(s: State, a: Action) {
    match a
    case Begin(src) => s.store.None? && |src| <= SIZE
    case Copy => s.store.Some? && s.store.value.done < |s.store.value.src|
    case Publish => s.store.Some? && s.store.value.done == |s.store.value.src|
  }

  /** One step of the capture task; a step that is not possible changes nothing. */
  function Apply(s: State, a: Action): State {
    if !Enabled(s, a) then s else
    match a
    case Begin(src) => s.(store := Some(Store(src, 0)))
    case Copy =>
      var st := s.store.value;
      var next := 1 - s.idx;
      if 0 <= next < |s.bufs| && st.done < |s.bufs[next]| then
        s.(bufs := s.bufs[next := s.bufs[next][st.done := st.src[st.done]]], store := Some(st.(done := st.done + 1)))
      else s
    case Publish =>
      var src := s.store.value.src;
      s.(idx := if s.idx == 0 then 1 else 0, len := |src|, published := s.published + [src], store := None)
  }

  function Run(s: State, actions: seq<Action>): State {
    if actions == [] then s else Apply(Run(s, actions[..|actions| - 1]), actions[|actions| - 1])
  }

  /** How many stores have begun to copy. */
  function Begun(s: State): nat { |s.published| + if s.store.Some? then 1 else 0 }

  /** The frame with ordinal `o`, published or being stored. */
  function FrameOf(s: State, o: nat): string
    requires 1 <= o <= Begun(s)
  {
    if o <= |s.published| then s.published[o - 1] else s.store.value.src
  }

  /** The store with ordinal `o` has copied its byte `i`. */
  predicate Wrote(s: State, o: nat, i: nat) {
    && 1 <= o <= Begun(s)
    && i < if o <= |s.published| then |s.published[o - 1]| else s.store.value.done
  }

  /** No store of ordinal o + 2, o + 4, ..., which go to the same buffer, has copied past `i`. */
  ghost predicate Intact(s: State, o: nat, i: nat) {
    forall p: nat :: o < p && p % 2 == o % 2 ==> !Wrote(s, p, i)
  }

  /** Stores fill the two buffers in turn, and byte `i` of a buffer is byte `i` of the latest store into it
      that has copied past `i`. */
  ghost predicate Inv(s: State) {
    var n := |s.published|;
    && |s.bufs| == 2 && |s.bufs[0]| == SIZE && |s.bufs[1]| == SIZE
    && s.idx == n % 2
    && (forall o :: 0 <= o < n ==> |s.published[o]| <= SIZE)
    && s.len == (if n == 0 then 0 else |s.published[n - 1]|)
    && (s.store.Some? ==> s.store.value.done <= |s.store.value.src| <= SIZE)
    && (forall o: nat, i: nat :: Wrote(s, o, i) && Intact(s, o, i) ==> s.bufs[o % 2][i] == FrameOf(s, o)[i])
  }

  ghost predicate Initial(s: State) {
    && |s.bufs| == 2 && |s.bufs[0]| == SIZE && |s.bufs[1]| == SIZE
    && s.idx == 0 && s.len == 0 && s.published == [] && s.store.None?
  }

  lemma StepKeepsInv(s: State, a: Action)
    requires Inv(s)
    ensures Inv(Apply(s, a))
    ensures s.published <= Apply(s, a).published && Begun(s) <= Begun(Apply(s, a))
  {
    var t := Apply(s, a);
    forall o: nat, i: nat | Wrote(t, o, i) && Intact(t, o, i) ensures t.bufs[o % 2][i] == FrameOf(t, o)[i] {
      StepKeepsByte(s, a, o, i);
    }
  }

  /** The byte of a buffer, if there is one. */
  function ByteAt(s: State, b: nat, k: nat): char {
    if b < |s.bufs| && k < |s.bufs[b]| then s.bufs[b][k] else '\0'
  }

  /** Only Copy changes a byte: the next one of the store, which it writes. */
  lemma StepBytes(s: State, a: Action, b: nat, i: nat)
    requires Inv(s) && b < 2
    ensures var t := Apply(s, a);
            && |t.bufs| == 2 && |t.bufs[b]| == SIZE
            && if a == Copy && Enabled(s, a) && b == Begun(s) % 2 && i == s.store.value.done
               then Wrote(t, Begun(s), i) && ByteAt(t, b, i) == s.store.value.src[i]
               else ByteAt(t, b, i) == ByteAt(s, b, i)
  {
    hide Inv;
    InvBounds(s);
  }

  lemma StepKeepsByte(s: State, a: Action, o: nat, i: nat)
    requires Inv(s) && Wrote(Apply(s, a), o, i) && Intact(Apply(s, a), o, i)
    ensures |Apply(s, a).bufs| == 2 && i < SIZE == |Apply(s, a).bufs[o % 2]|
    ensures Apply(s, a).bufs[o % 2][i] == FrameOf(Apply(s, a), o)[i]
  {
    hide Apply, Inv;
    InvBounds(s);
    StepWrites(s, a, o, i);
    StepBytes(s, a, o % 2, i);
    if Wrote(s, o, i) {
      forall p: nat | o < p && p % 2 == o % 2 ensures !Wrote(s, p, i) {
        StepWrites(s, a, p, i);
      }
      IntactByte(s, o, i);
    } else {
      CopyKeepsFrame(s);
    }
  }

  lemma IntactByte(s: State, o: nat, i: nat)
    requires Inv(s) && Wrote(s, o, i) && Intact(s, o, i)
    ensures i < |FrameOf(s, o)| <= SIZE && ByteAt(s, o % 2, i) == FrameOf(s, o)[i]
  {
    WroteBounds(s, o, i);
    hide Wrote, Intact, FrameOf;
  }

  lemma WroteBounds(s: State, o: nat, i: nat)
    requires Inv(s) && Wrote(s, o, i)
    ensures 1 <= o <= Begun(s) && i < |FrameOf(s, o)| <= SIZE
    ensures |s.bufs| == 2 && |s.bufs[0]| == SIZE && |s.bufs[1]| == SIZE
  {
    hide Inv;
    InvBounds(s);
  }

  lemma CopyKeepsFrame(s: State)
    requires Enabled(s, Copy)
    ensures Begun(Apply(s, Copy)) == Begun(s) && FrameOf(Apply(s, Copy), Begun(s)) == s.store.value.src
  {
  }

  /** A step takes no written byte back, and only Copy writes one. */
  lemma StepWrites(s: State, a: Action, o: nat, i: nat)
    requires Inv(s)
    ensures Wrote(s, o, i) ==> Wrote(Apply(s, a), o, i) && FrameOf(Apply(s, a), o) == FrameOf(s, o)
    ensures Wrote(Apply(s, a), o, i) && !Wrote(s, o, i) ==>
              Enabled(s, a) && a == Copy && o == Begun(s) && i == s.store.value.done
  {
    hide Inv;
    InvBounds(s);
  }

  lemma InvBounds(s: State)
    requires Inv(s)
    ensures s.store.Some? ==> s.store.value.done <= |s.store.value.src| <= SIZE
    ensures |s.bufs| == 2 && |s.bufs[0]| == SIZE && |s.bufs[1]| == SIZE && s.idx == |s.published| % 2
    ensures forall o :: 0 <= o < |s.published| ==> |s.published[o]| <= SIZE
  {
  }

  lemma {:induction false} RunKeepsInv(s: State, actions: seq<Action>)
    requires Inv(s)
    ensures Inv(Run(s, actions))
    ensures s.published <= Run(s, actions).published && Begun(s) <= Begun(Run(s, actions))
  {
    if actions != [] {
      RunKeepsInv(s, actions[..|actions| - 1]);
      StepKeepsInv(Run(s, actions[..|actions| - 1]), actions[|actions| - 1]);
    }
  }

  // ---------- What the upload task reads ----------

  /** The latest of the stores 1, ..., n into buffer `b` that has copied past `i`, or 0. */
  function Writer(s: State, b: nat, i: nat, n: nat): (o: nat)
    ensures o <= n && (o > 0 ==> o % 2 == b && Wrote(s, o, i))
    ensures forall p: nat :: o < p <= n && p % 2 == b ==> !Wrote(s, p, i)
  {
    if n == 0 || (n % 2 == b && Wrote(s, n, i)) then n else Writer(s, b, i, n - 1)
  }

  /** In every state: which byte stands in the buffer of frame `o`, and when it is still the frame's own. */
  lemma ByteOfFrame(s: State, o: nat, i: nat)
    requires Inv(s) && Wrote(s, o, i)
    ensures var w := Writer(s, o % 2, i, Begun(s));
            o <= w <= Begun(s) && w % 2 == o % 2 && i < |FrameOf(s, w)|
            && s.bufs[o % 2][i] == FrameOf(s, w)[i] && (w == o <==> Intact(s, o, i))
  {
    var w := Writer(s, o % 2, i, Begun(s));
    assert Wrote(s, w, i) && Intact(s, w, i);
  }

  /** The state after `schedule[0]`, `schedule[1]`, ... were run one after the other. */
  function After(s: State, schedule: seq<seq<Action>>): State {
    if schedule == [] then s
    else Run(After(s, schedule[..|schedule| - 1]), schedule[|schedule| - 1])
  }

  /** The bytes a reader of frame `o`'s buffer gets when `schedule[i]` runs just before byte `i` is read. */
  function ReadBytes(s: State, o: nat, schedule: seq<seq<Action>>): (r: string)
    requires |schedule| <= SIZE
    requires Inv(s)
    ensures |r| == |schedule|
  {
    if schedule == [] then ""
    else
      var k := |schedule| - 1;
      AfterKeepsInv(s, schedule);
      ReadBytes(s, o, schedule[..k]) + [After(s, schedule).bufs[o % 2][k]]
  }

  lemma {:induction false} AfterKeepsInv(s: State, schedule: seq<seq<Action>>)
    requires Inv(s)
    ensures Inv(After(s, schedule))
    ensures s.published <= After(s, schedule).published && Begun(s) <= Begun(After(s, schedule))
  {
    hide Inv, Run, Begun;
    if schedule != [] {
      AfterKeepsInv(s, schedule[..|schedule| - 1]);
      RunKeepsInv(After(s, schedule[..|schedule| - 1]), schedule[|schedule| - 1]);
    }
  }

  /** The state in which byte `k` is read. */
  function AtRead(s: State, schedule: seq<seq<Action>>, k: nat): State
    requires k < |schedule|
  {
    After(s, schedule[..k + 1])
  }

  /** What a read of frame `o` delivers under any schedule: byte `k` is that of the latest store into the
      frame's buffer that has copied past `k` by then. */
  lemma {:induction false} ReadDelivers(s: State, o: nat, schedule: seq<seq<Action>>, k: nat)
    requires Inv(s) && 1 <= o <= |s.published|
    requires k < |schedule| <= |s.published[o - 1]|
    ensures |schedule| <= SIZE
    ensures var t := AtRead(s, schedule, k);
            var w := Writer(t, o % 2, k, Begun(t));
            o <= w <= Begun(t) && w % 2 == o % 2 && k < |FrameOf(t, w)|
            && FrameOf(t, o) == s.published[o - 1]
            && ReadBytes(s, o, schedule)[k] == FrameOf(t, w)[k] && (w == o <==> Intact(t, o, k))
  {
    hide Run, Intact, Writer;
    var n := |schedule| - 1;
    if k == n {
      assert schedule[..n + 1] == schedule;
      AfterKeepsInv(s, schedule);
      ByteOfFrame(After(s, schedule), o, k);
    } else {
      ReadDelivers(s, o, schedule[..n], k);
      assert schedule[..n][..k + 1] == schedule[..k + 1];
    }
  }

  /** Each byte `k` is read before a store of ordinal o + 2, o + 4, ... has copied past it. */
  ghost predicate ReadInTime(s: State, o: nat, schedule: seq<seq<Action>>) {
    forall k: nat :: k < |schedule| ==> Intact(AtRead(s, schedule, k), o, k)
  }

  /** In every interleaving: a read in time delivers a prefix of the frame the snapshot named. */
  lemma InterleavedRead(s: State, schedule: seq<seq<Action>>)
    requires Inv(s) && s.published != [] && |schedule| <= s.len
    requires ReadInTime(s, |s.published|, schedule)
    ensures ReadBytes(s, |s.published|, schedule) == s.published[|s.published| - 1][..|schedule|]
  {
    hide After, ReadBytes, Intact, Writer;
    var o := |s.published|;
    forall k | 0 <= k < |schedule| ensures ReadBytes(s, o, schedule)[k] == s.published[o - 1][k] {
      ReadDelivers(s, o, schedule, k);
    }
  }

  lemma LenIsLast(s: State)
    requires Inv(s) && s.published != []
    ensures s.len == |s.published[|s.published| - 1]| <= SIZE
  {
  }

  /** In particular the whole frame is read when no second later store has begun by the last read. */
  lemma ReadIsFrame(s: State, schedule: seq<seq<Action>>)
    requires Inv(s) && s.published != [] && |schedule| == s.len
    requires Begun(After(s, schedule)) <= |s.published| + 1
    ensures ReadBytes(s, |s.published|, schedule) == s.published[|s.published| - 1]
  {
    hide After, ReadBytes, Inv, FrameOf;
    LenIsLast(s);
    forall k: nat | k < |schedule| ensures Intact(AtRead(s, schedule, k), |s.published|, k) {
      AfterGrows(s, schedule, k + 1);
    }
    InterleavedRead(s, schedule);
  }

  lemma {:induction false} AfterGrows(s: State, schedule: seq<seq<Action>>, k: nat)
    requires Inv(s) && k <= |schedule|
    ensures Begun(After(s, schedule[..k])) <= Begun(After(s, schedule))
  {
    hide Inv, Run, Begun;
    var n := |schedule| - 1;
    if k == |schedule| {
      assert schedule[..k] == schedule;
    } else {
      AfterGrows(s, schedule[..n], k);
      assert schedule[..n][..k] == schedule[..k];
      AfterKeepsInv(s, schedule[..n]);
      RunKeepsInv(After(s, schedule[..n]), schedule[n]);
    }
  }

  // ---------- Reading in time is necessary ----------

  /** The same steps on frames of the same lengths, whatever their contents. */
  predicate SameStep(a: Action, b: Action) { a == b || (a.Begin? && b.Begin? && |a.src| == |b.src|) }

  ghost predicate SameSteps(a: seq<Action>, b: seq<Action>) {
    |a| == |b| && forall i :: 0 <= i < |a| ==> SameStep(a[i], b[i])
  }

  ghost predicate SameShape(x: seq<seq<Action>>, y: seq<seq<Action>>) {
    |x| == |y| && forall i :: 0 <= i < |x| ==> SameSteps(x[i], y[i])
  }

  ghost predicate SameProgress(s: State, t: State) {
    && |s.published| == |t.published|
    && (forall i :: 0 <= i < |s.published| ==> |s.published[i]| == |t.published[i]|)
    && s.store.Some? == t.store.Some?
    && (s.store.Some? ==> s.store.value.done == t.store.value.done && |s.store.value.src| == |t.store.value.src|)
  }

  lemma StepSame(s: State, t: State, a: Action, b: Action)
    requires Inv(s) && Inv(t) && SameProgress(s, t) && SameStep(a, b)
    ensures SameProgress(Apply(s, a), Apply(t, b))
  {
    hide Inv;
    InvBounds(s);
    InvBounds(t);
  }

  lemma {:induction false} RunSame(s: State, t: State, a: seq<Action>, b: seq<Action>)
    requires Inv(s) && Inv(t) && SameProgress(s, t) && SameSteps(a, b)
    ensures SameProgress(Run(s, a), Run(t, b))
  {
    hide Inv, Apply, SameProgress, SameStep;
    if a != [] {
      var n := |a| - 1;
      RunSame(s, t, a[..n], b[..n]);
      RunKeepsInv(s, a[..n]);
      RunKeepsInv(t, b[..n]);
      StepSame(Run(s, a[..n]), Run(t, b[..n]), a[n], b[n]);
    }
  }

  lemma {:induction false} AfterSame(s: State, x: seq<seq<Action>>, y: seq<seq<Action>>)
    requires Inv(s) && SameShape(x, y)
    ensures SameProgress(After(s, x), After(s, y))
  {
    hide Inv, Run, SameSteps;
    if x != [] {
      var n := |x| - 1;
      AfterSame(s, x[..n], y[..n]);
      AfterKeepsInv(s, x[..n]);
      AfterKeepsInv(s, y[..n]);
      RunSame(After(s, x[..n]), After(s, y[..n]), x[n], y[n]);
    }
  }

  lemma SameIntact(s: State, t: State, o: nat, i: nat)
    requires SameProgress(s, t)
    ensures Intact(s, o, i) <==> Intact(t, o, i)
  {
    assert forall p: nat :: Wrote(s, p, i) <==> Wrote(t, p, i);
  }

  lemma SameInTime(s: State, o: nat, x: seq<seq<Action>>, y: seq<seq<Action>>)
    requires Inv(s) && SameShape(x, y) && ReadInTime(s, o, x)
    ensures ReadInTime(s, o, y)
  {
    hide Inv, After, Intact, SameSteps, SameProgress;
    forall k: nat | k < |y| ensures Intact(AtRead(s, y, k), o, k) {
      assert Intact(AtRead(s, x, k), o, k);
      AfterSame(s, x[..k + 1], y[..k + 1]);
      SameIntact(After(s, x[..k + 1]), After(s, y[..k + 1]), o, k);
    }
  }

  function Fill(n: nat, c: char): (r: string)
    ensures |r| == n && forall i :: 0 <= i < n ==> r[i] == c
  {
    seq(n, _ => c)
  }

  /** The step with the frame it begins replaced by one of the same length that is all `c`. */
  function Paint(a: Action, c: char): Action { if a.Begin? then Begin(Fill(|a.src|, c)) else a }

  function PaintSteps(actions: seq<Action>, c: char): seq<Action> {
    if actions == [] then [] else PaintSteps(actions[..|actions| - 1], c) + [Paint(actions[|actions| - 1], c)]
  }

  function PaintAll(schedule: seq<seq<Action>>, c: char): seq<seq<Action>> {
    if schedule == [] then [] else PaintAll(schedule[..|schedule| - 1], c) + [PaintSteps(schedule[|schedule| - 1], c)]
  }

  lemma {:induction false} PaintStepsShape(actions: seq<Action>, c: char)
    ensures SameSteps(actions, PaintSteps(actions, c))
  {
    if actions != [] { PaintStepsShape(actions[..|actions| - 1], c); }
  }

  lemma {:induction false} PaintShape(schedule: seq<seq<Action>>, c: char)
    ensures SameShape(schedule, PaintAll(schedule, c))
  {
    hide SameSteps, PaintSteps;
    if schedule != [] {
      PaintShape(schedule[..|schedule| - 1], c);
      PaintStepsShape(schedule[|schedule| - 1], c);
    }
  }

  /** The stores after the first `n` copy frames that are all `c`. */
  ghost predicate Painted(s: State, n: nat, c: char) {
    forall p: nat, i: nat :: n < p <= Begun(s) && i < |FrameOf(s, p)| ==> FrameOf(s, p)[i] == c
  }

  lemma StepPaints(s: State, n: nat, a: Action, c: char)
    requires Inv(s) && Painted(s, n, c)
    ensures Painted(Apply(s, Paint(a, c)), n, c)
  {
    hide Inv;
    InvBounds(s);
    var t := Apply(s, Paint(a, c));
    forall p: nat, i: nat | n < p <= Begun(t) && i < |FrameOf(t, p)| ensures FrameOf(t, p)[i] == c {
      assert p <= Begun(s) ==> FrameOf(t, p) == FrameOf(s, p);
    }
  }

  lemma {:induction false} RunPaints(s: State, n: nat, actions: seq<Action>, c: char)
    requires Inv(s) && Painted(s, n, c)
    ensures Painted(Run(s, PaintSteps(actions, c)), n, c)
  {
    hide Inv, Apply, Painted, Paint;
    if actions != [] {
      var most, a := actions[..|actions| - 1], actions[|actions| - 1];
      RunPaints(s, n, most, c);
      RunKeepsInv(s, PaintSteps(most, c));
      StepPaints(Run(s, PaintSteps(most, c)), n, a, c);
      RunOne(s, PaintSteps(most, c), Paint(a, c));
    }
  }

  lemma {:induction false} AfterPaints(s: State, n: nat, schedule: seq<seq<Action>>, c: char)
    requires Inv(s) && Painted(s, n, c)
    ensures Painted(After(s, PaintAll(schedule, c)), n, c)
  {
    hide Inv, Run, Painted, PaintSteps;
    if schedule != [] {
      var most, last := schedule[..|schedule| - 1], schedule[|schedule| - 1];
      AfterPaints(s, n, most, c);
      AfterKeepsInv(s, PaintAll(most, c));
      RunPaints(After(s, PaintAll(most, c)), n, last, c);
      AfterOne(s, PaintAll(most, c), PaintSteps(last, c));
    }
  }

  lemma RunOne(s: State, actions: seq<Action>, a: Action)
    ensures Run(s, actions + [a]) == Apply(Run(s, actions), a)
  {
    assert (actions + [a])[..|actions|] == actions;
  }

  lemma AfterOne(s: State, schedule: seq<seq<Action>>, actions: seq<Action>)
    ensures After(s, schedule + [actions]) == Run(After(s, schedule), actions)
  {
    assert (schedule + [actions])[..|schedule|] == schedule;
  }

  lemma {:induction false} PaintPrefix(schedule: seq<seq<Action>>, c: char, k: nat)
    requires k <= |schedule|
    ensures |PaintAll(schedule, c)| == |schedule|
    ensures PaintAll(schedule, c)[..k] == PaintAll(schedule[..k], c)
  {
    hide PaintSteps;
    var n := |schedule| - 1;
    if k == |schedule| {
      assert schedule[..k] == schedule;
      if n >= 0 { PaintPrefix(schedule[..n], c, n); }
    } else {
      PaintPrefix(schedule[..n], c, k);
      assert schedule[..n][..k] == schedule[..k];
    }
  }

  /** A byte read too late is not the frame's: with other contents in the later stores it is any `c`. */
  lemma LateByte(s: State, schedule: seq<seq<Action>>, k: nat, c: char)
    requires Inv(s) && s.published != [] && k < |schedule| <= s.len
    requires !Intact(AtRead(s, schedule, k), |s.published|, k)
    ensures |PaintAll(schedule, c)| == |schedule|
    ensures ReadBytes(s, |s.published|, PaintAll(schedule, c))[k] == c
  {
    hide After, ReadBytes, Intact, Writer, PaintAll;
    var o, x, y := |s.published|, schedule[..k + 1], PaintAll(schedule, c);
    PaintPrefix(schedule, c, k + 1);
    PaintShape(x, c);
    AfterSame(s, x, PaintAll(x, c));
    SameIntact(After(s, x), After(s, PaintAll(x, c)), o, k);
    assert Painted(s, o + 1, c);
    AfterPaints(s, o + 1, x, c);
    ReadDelivers(s, o, y, k);
  }

  /** The exact condition: a schedule delivers the frame the snapshot named, whatever the contents of later
      frames, if and only if each byte is read in time. */
  lemma ReadExactly(s: State, schedule: seq<seq<Action>>)
    requires Inv(s) && s.published != [] && |schedule| <= s.len
    ensures ReadInTime(s, |s.published|, schedule)
            <==> forall y | SameShape(schedule, y) ::
                   ReadBytes(s, |s.published|, y) == s.published[|s.published| - 1][..|schedule|]
  {
    hide After, ReadBytes, Intact, SameSteps, PaintAll;
    var o, frame := |s.published|, s.published[|s.published| - 1];
    if ReadInTime(s, o, schedule) {
      forall y | SameShape(schedule, y) ensures ReadBytes(s, o, y) == frame[..|schedule|] {
        SameInTime(s, o, schedule, y);
        InterleavedRead(s, y);
      }
    } else {
      var k: nat :| k < |schedule| && !Intact(AtRead(s, schedule, k), o, k);
      var c := if frame[k] == 'x' then 'y' else 'x';
      LateByte(s, schedule, k, c);
      PaintShape(schedule, c);
      assert ReadBytes(s, o, PaintAll(schedule, c))[k] != frame[..|schedule|][k];
    }
  }

  // ---------- A torn read is possible in every state ----------

  lemma {:induction false} RunConcat(s: State, a: seq<Action>, b: seq<Action>)
    ensures Run(s, a + b) == Run(Run(s, a), b)
  {
    hide Apply;
    if b == [] {
      assert a + b == a;
    } else {
      RunConcat(s, a, b[..|b| - 1]);
      assert (a + b)[..|a + b| - 1] == a + b[..|b| - 1];
    }
  }

  function Copies(n: nat): seq<Action> { if n == 0 then [] else Copies(n - 1) + [Copy] }

  lemma CopyOne(s: State)
    requires Inv(s) && Enabled(s, Copy)
    ensures var t := Apply(s, Copy);
            t.published == s.published && t.store == Some(Store(s.store.value.src, s.store.value.done + 1))
  {
    hide Inv;
    InvBounds(s);
  }

  lemma {:induction false} RunCopies(s: State, n: nat)
    requires Inv(s) && s.store.Some? && s.store.value.done + n <= |s.store.value.src|
    ensures var t := Run(s, Copies(n));
            Inv(t) && t.published == s.published
            && t.store == Some(Store(s.store.value.src, s.store.value.done + n))
  {
    hide Inv, Apply;
    if n > 0 {
      RunCopies(s, n - 1);
      RunOne(s, Copies(n - 1), Copy);
      CopyOne(Run(s, Copies(n - 1)));
      StepKeepsInv(Run(s, Copies(n - 1)), Copy);
    }
  }

  /** The store in progress, or else a store of an empty frame, is finished and published. */
  function Finish(s: State): seq<Action>
    requires Inv(s)
  {
    if s.store.None? then [Begin("")] + [Publish]
    else Copies(|s.store.value.src| - s.store.value.done) + [Publish]
  }

  lemma BeginThenPublish(s: State)
    requires s.store.None?
    ensures Run(s, [Begin("")] + [Publish]) == Apply(Apply(s, Begin("")), Publish)
    ensures var t := Apply(Apply(s, Begin("")), Publish); |t.published| == |s.published| + 1 && t.store.None?
  {
    RunOne(s, [], Begin(""));
    assert [] + [Begin("")] == [Begin("")];
    RunOne(s, [Begin("")], Publish);
  }

  lemma RunFinish(s: State)
    requires Inv(s)
    ensures var t := Run(s, Finish(s)); Inv(t) && |t.published| == |s.published| + 1 && t.store.None?
  {
    hide Inv, Run;
    InvBounds(s);
    RunKeepsInv(s, Finish(s));
    if s.store.None? {
      BeginThenPublish(s);
    } else {
      var n := |s.store.value.src| - s.store.value.done;
      RunCopies(s, n);
      RunOne(s, Copies(n), Publish);
    }
  }

  lemma RunStore(s: State, src: string)
    requires Inv(s) && s.store.None? && |src| <= SIZE
    ensures var t := Run(s, [Begin(src)] + Copies(|src|));
            Inv(t) && t.published == s.published && t.store == Some(Store(src, |src|))
  {
    hide Inv, Run;
    RunOne(s, [], Begin(src));
    assert [] + [Begin(src)] == [Begin(src)];
    RunEmpty(s);
    StepKeepsInv(s, Begin(src));
    RunCopies(Apply(s, Begin(src)), |src|);
    RunConcat(s, [Begin(src)], Copies(|src|));
  }

  lemma RunEmpty(s: State)
    ensures Run(s, []) == s
  {
  }

  /** One store is finished, and the next one has copied `n` bytes `c`. */
  function TwoStores(s: State, n: nat, c: char): seq<Action>
    requires Inv(s)
  {
    Finish(s) + ([Begin(Fill(n, c))] + Copies(n))
  }

  lemma RunTwoStores(s: State, n: nat, c: char)
    requires Inv(s) && n <= SIZE
    ensures var t := Run(s, TwoStores(s, n, c));
            Inv(t) && |t.published| == |s.published| + 1 && t.store == Some(Store(Fill(n, c), n))
  {
    hide Inv, Run, Finish, Copies;
    RunFinish(s);
    RunStore(Run(s, Finish(s)), Fill(n, c));
    RunConcat(s, Finish(s), [Begin(Fill(n, c))] + Copies(n));
  }

  function Quiet(k: nat): seq<seq<Action>> { if k == 0 then [] else Quiet(k - 1) + [[]] }

  lemma {:induction false} AfterQuiet(s: State, k: nat)
    ensures |Quiet(k)| == k && After(s, Quiet(k)) == s
  {
    if k > 0 {
      AfterQuiet(s, k - 1);
      AfterOne(s, Quiet(k - 1), []);
    }
  }

  lemma QuietPrefix(k: nat, j: nat)
    requires j <= k
    ensures |Quiet(k)| == k && Quiet(k)[..j] == Quiet(j)
  {
  }

  /** With no capture step in between, the frame is read. */
  lemma QuietRead(s: State, k: nat)
    requires Inv(s) && s.published != [] && k <= s.len
    ensures |Quiet(k)| == k <= SIZE
    ensures ReadBytes(s, |s.published|, Quiet(k)) == s.published[|s.published| - 1][..k]
  {
    hide Run, Inv, After, ReadBytes;
    AfterQuiet(s, k);
    LenIsLast(s);
    forall j: nat | j < k ensures Intact(AtRead(s, Quiet(k), j), |s.published|, j) {
      QuietPrefix(k, j + 1);
      AfterQuiet(s, j + 1);
    }
    InterleavedRead(s, Quiet(k));
  }

  /** Once the second later store has copied past the byte, it is what is read. */
  lemma LateRead(s: State, schedule: seq<seq<Action>>, k: nat)
    requires Inv(s) && s.published != [] && k < |schedule| <= s.len
    requires Begun(AtRead(s, schedule, k)) == |s.published| + 2 && Wrote(AtRead(s, schedule, k), |s.published| + 2, k)
    ensures var t := AtRead(s, schedule, k);
            k < |FrameOf(t, |s.published| + 2)|
            && ReadBytes(s, |s.published|, schedule)[k] == FrameOf(t, |s.published| + 2)[k]
  {
    hide After, ReadBytes, Wrote;
    ReadDelivers(s, |s.published|, schedule, k);
  }

  /** A torn read is possible in every state with a published frame, stores in progress or not, at any byte:
      two stores between two reads make the next byte any `c`. */
  lemma TornRead(s: State, k: nat, c: char)
    requires Inv(s) && s.published != [] && k < s.len
    ensures k < SIZE && |Quiet(k)| == k
    ensures ReadBytes(s, |s.published|, Quiet(k) + [TwoStores(s, k + 1, c)])
         == s.published[|s.published| - 1][..k] + [c]
  {
    hide Run, Inv, TwoStores, After, Quiet;
    var last := TwoStores(s, k + 1, c);
    var schedule := Quiet(k) + [last];
    LenIsLast(s);
    AfterQuiet(s, k);
    QuietRead(s, k);
    assert schedule[..k] == Quiet(k) && schedule[..k + 1] == schedule;
    RunTwoStores(s, k + 1, c);
    AfterOne(s, Quiet(k), last);
    LateRead(s, schedule, k);
  }

  // ---------- Reads in a run ----------

  /** The state after `i` steps of a run. */
  function StateAt(start: State, run: seq<Action>, i: nat): State
    requires i <= |run|
  {
    Run(start, run[..i])
  }

  /** Byte `k` of `got` is what stood at `k` in buffer `b` after at[k] steps of the run; the reads are in
      order, and none is before `from`. */
  ghost predicate ReadAt(start: State, run: seq<Action>, b: nat, from: nat, got: string, at: seq<nat>) {
    && |at| == |got|
    && (forall k :: 0 <= k < |at| ==> from <= at[k] <= |run| && got[k] == ByteAt(StateAt(start, run, at[k]), b, k))
    && (forall j, k :: 0 <= j < k < |at| ==> at[j] <= at[k])
  }

  lemma ReadAtGrows(start: State, run: seq<Action>, longer: seq<Action>, b: nat, from: nat, got: string, at: seq<nat>)
    requires ReadAt(start, run, b, from, got, at) && run <= longer
    ensures ReadAt(start, longer, b, from, got, at)
  {
    hide Run, ByteAt;
    forall k | 0 <= k < |at| ensures got[k] == ByteAt(StateAt(start, longer, at[k]), b, k) {
      assert longer[..at[k]] == run[..at[k]];
    }
  }

  /** One more byte, read now. */
  lemma ReadOneMore(start: State, run: seq<Action>, b: nat, from: nat, got: string, at: seq<nat>, c: char)
    requires ReadAt(start, run, b, from, got, at) && from <= |run|
    requires c == ByteAt(Run(start, run), b, |got|)
    ensures ReadAt(start, run, b, from, got + [c], at + [|run|])
  {
    hide Run, ByteAt;
    assert run[..|run|] == run;
  }

  /** The steps that run just before each read, counted from the state after `from` steps. */
  function Schedule(run: seq<Action>, from: nat, at: seq<nat>): (r: seq<seq<Action>>)
    ensures |r| == |at|
  {
    if at == [] then []
    else
      var n := |at| - 1;
      var before := if n == 0 then from else at[n - 1];
      Schedule(run, from, at[..n]) + [if before <= at[n] <= |run| then run[before..at[n]] else []]
  }

  lemma RunSplits(start: State, run: seq<Action>, i: nat, j: nat)
    requires i <= j <= |run|
    ensures StateAt(start, run, j) == Run(StateAt(start, run, i), run[i..j])
    ensures j == |run| ==> StateAt(start, run, j) == Run(start, run)
  {
    hide Run;
    RunConcat(start, run[..i], run[i..j]);
    assert run[..i] + run[i..j] == run[..j];
    assert j == |run| ==> run[..j] == run;
  }

  lemma NoneAfter(s: State)
    ensures After(s, []) == s
  {
  }

  /** The schedule leads to the states of the run. */
  lemma {:induction false} ScheduleReaches(start: State, run: seq<Action>, from: nat, at: seq<nat>)
    requires from <= |run| && (forall k :: 0 <= k < |at| ==> from <= at[k] <= |run|)
    requires forall j, k :: 0 <= j < k < |at| ==> at[j] <= at[k]
    ensures After(StateAt(start, run, from), Schedule(run, from, at))
         == StateAt(start, run, if at == [] then from else at[|at| - 1])
  {
    hide Run, StateAt, After;
    if at == [] {
      NoneAfter(StateAt(start, run, from));
    } else {
      var n := |at| - 1;
      var before := if n == 0 then from else at[n - 1];
      ScheduleReaches(start, run, from, at[..n]);
      AfterOne(StateAt(start, run, from), Schedule(run, from, at[..n]), run[before..at[n]]);
      RunSplits(start, run, before, at[n]);
    }
  }

  lemma StateAtInv(start: State, run: seq<Action>, i: nat)
    requires Inv(start) && i <= |run|
    ensures Inv(StateAt(start, run, i))
  {
    hide Inv, Run;
    RunKeepsInv(start, run[..i]);
  }

  lemma NothingRead(s: State, o: nat)
    requires Inv(s)
    ensures ReadBytes(s, o, []) == ""
  {
  }

  lemma LastByteRead(s: State, o: nat, schedule: seq<seq<Action>>)
    requires Inv(s) && 1 <= |schedule| <= SIZE
    ensures var n := |schedule| - 1;
            ReadBytes(s, o, schedule) == ReadBytes(s, o, schedule[..n]) + [ByteAt(After(s, schedule), o % 2, n)]
  {
    hide Inv, After, Begun, ByteAt;
    AfterKeepsInv(s, schedule);
    BufferByte(After(s, schedule), o % 2, |schedule| - 1);
  }

  lemma BufferByte(s: State, b: nat, i: nat)
    requires Inv(s) && b < 2 && i < SIZE
    ensures |s.bufs| == 2 && |s.bufs[b]| == SIZE && s.bufs[b][i] == ByteAt(s, b, i)
  {
    hide Inv;
    InvBounds(s);
  }

  /** So bytes read in a run are what ReadBytes says of the run's own schedule. */
  lemma {:induction false} ReadAtIsReadBytes(start: State, run: seq<Action>, o: nat, from: nat, got: string,
                                             at: seq<nat>)
    requires Inv(start) && from <= |run| && |got| <= SIZE && ReadAt(start, run, o % 2, from, got, at)
    ensures Inv(StateAt(start, run, from))
    ensures ReadBytes(StateAt(start, run, from), o, Schedule(run, from, at)) == got
  {
    hide Run, Inv, After, StateAt, ByteAt, ReadBytes;
    StateAtInv(start, run, from);
    var s, schedule := StateAt(start, run, from), Schedule(run, from, at);
    if got == "" {
      NothingRead(s, o);
    } else {
      var n := |got| - 1;
      ReadAtIsReadBytes(start, run, o, from, got[..n], at[..n]);
      ScheduleReaches(start, run, from, at);
      assert schedule[..n] == Schedule(run, from, at[..n]);
      LastByteRead(s, o, schedule);
      assert got == got[..n] + [got[n]];
    }
  }

  /** A run takes no written byte back. */
  lemma {:induction false} RunKeepsWritten(s: State, actions: seq<Action>, o: nat, i: nat)
    requires Inv(s) && Wrote(s, o, i)
    ensures Wrote(Run(s, actions), o, i) && FrameOf(Run(s, actions), o) == FrameOf(s, o)
  {
    hide Inv, Apply, Wrote, FrameOf;
    if actions != [] {
      var n := |actions| - 1;
      RunKeepsWritten(s, actions[..n], o, i);
      RunKeepsInv(s, actions[..n]);
      StepWrites(Run(s, actions[..n]), actions[n], o, i);
    }
  }

  /** `c` is byte `k` of store `w`, which is frame `o` or two, four, ... ordinals later. */
  predicate IsByteOf(s: State, o: nat, w: nat, k: nat, c: char) {
    o <= w <= Begun(s) && w % 2 == o % 2 && Wrote(s, w, k) && k < |FrameOf(s, w)| && FrameOf(s, w)[k] == c
  }

  ghost predicate FromSomeStore(s: State, o: nat, k: nat, c: char) { exists w: nat :: IsByteOf(s, o, w, k, c) }

  ghost predicate FromStores(s: State, o: nat, got: string) {
    forall k: nat :: k < |got| ==> FromSomeStore(s, o, k, got[k])
  }

  /** The byte of frame `o` read after the steps `a` is one of a store into its buffer, also after `b`. */
  lemma ReadIsFromStore(s: State, a: seq<Action>, b: seq<Action>, o: nat, k: nat) returns (w: nat)
    requires Inv(s) && Wrote(s, o, k)
    ensures IsByteOf(Run(Run(s, a), b), o, w, k, ByteAt(Run(s, a), o % 2, k))
  {
    hide Inv, Run, Intact, Apply;
    var t := Run(s, a);
    RunKeepsInv(s, a);
    RunKeepsWritten(s, a, o, k);
    InvBounds(t);
    ByteOfFrame(t, o, k);
    w := Writer(t, o % 2, k, Begun(t));
    RunKeepsWritten(t, b, w, k);
  }

  lemma ByteInRun(start: State, run: seq<Action>, o: nat, from: nat, i: nat, k: nat) returns (w: nat)
    requires Inv(start) && from <= i <= |run|
    requires var s := StateAt(start, run, from); 1 <= o <= |s.published| && k < |s.published[o - 1]|
    ensures IsByteOf(Run(start, run), o, w, k, ByteAt(StateAt(start, run, i), o % 2, k))
  {
    hide Inv, Run, ByteAt, IsByteOf;
    RunKeepsInv(start, run[..from]);
    RunSplits(start, run, from, i);
    RunSplits(start, run, i, |run|);
    w := ReadIsFromStore(StateAt(start, run, from), run[from..i], run[i..|run|], o, k);
  }

  /** A read of a published frame, torn or not, delivers only bytes of stores into its buffer, in place. */
  lemma ReadAtIsFromStores(start: State, run: seq<Action>, o: nat, from: nat, got: string, at: seq<nat>)
    requires Inv(start) && from <= |run| && ReadAt(start, run, o % 2, from, got, at)
    requires var s := StateAt(start, run, from); 1 <= o <= |s.published| && |got| <= |s.published[o - 1]|
    ensures FromStores(Run(start, run), o, got)
  {
    hide Inv, Run, ByteAt, IsByteOf, StateAt;
    forall k: nat | k < |got| ensures FromSomeStore(Run(start, run), o, k, got[k]) {
      var w := ByteInRun(start, run, o, from, at[k], k);
      assert got[k] == ByteAt(StateAt(start, run, at[k]), o % 2, k);
    }
  }
}
