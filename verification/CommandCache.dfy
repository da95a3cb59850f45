/** The command buffer of json_parser.c: ten slots indexed by (id - 1) % 10 that stand in for the whole
    command history. The history is the list of operations; what it means is defined without slots. */
module CommandCache {
  import opened Numerals
  import opened UartCodec

  const CMD_BUFFER_LEN: nat := 10

  datatype Status = OK | PARSE_ERROR | ID_NOT_FOUND | BUFFER_CMD_NULL | NOT_VALID_ID

  /** push(cmd), or modify_cmd(cmd.id, cmd). Ids are nonzero: push has no check of its own. */
  datatype Op = Push(cmd: DataCmd) | Modify(cmd: DataCmd)

  ghost predicate ValidOps(ops: seq<Op>) { forall i :: 0 <= i < |ops| ==> ops[i].cmd.id != 0 }

  function Slot(id: nat): nat
    requires id != 0
  {
    (id - 1) % CMD_BUFFER_LEN
  }

  /** C's remainder, which takes the sign of the dividend. */
  function CRem(a: int, b: int): int
    requires b > 0
  {
    if a >= 0 then a % b else -((-a) % b)
  }

  /** The uint8_t index of push, take_cmd and modify_cmd. */
  function SlotIndex(id: uint16): uint8 { CRem((id as int) - 1, CMD_BUFFER_LEN) % 0x100 }

  /** It is a slot exactly for nonzero ids; for id 0 it is 255. */
  lemma IndexIsSlot(id: uint16)
    ensures SlotIndex(id) < CMD_BUFFER_LEN <==> id != 0
    ensures if id == 0 then SlotIndex(id) == 255 else SlotIndex(id) == Slot(id)
  {
  }

  // ---------- What the history says ----------

  /** The id pushed last among those that share a slot with `id`. */
  function LastPushed(ops: seq<Op>, id: nat): Option<nat>
    requires id != 0
  {
    if ops == [] then None
    else
      var o := ops[|ops| - 1];
      if o.Push? && o.cmd.id != 0 && Slot(o.cmd.id) == Slot(id) then Some(o.cmd.id)
      else LastPushed(ops[..|ops| - 1], id)
  }

  /** The last command pushed or offered as a modification under `id`. */
  function LastVersion(ops: seq<Op>, id: nat): Option<DataCmd> {
    if ops == [] then None
    else if ops[|ops| - 1].cmd.id == id then Some(ops[|ops| - 1].cmd)
    else LastVersion(ops[..|ops| - 1], id)
  }

  /** What take_cmd must return: a command is kept exactly as long as no other id was pushed into its slot. */
  function Lookup(ops: seq<Op>, id: nat): Option<DataCmd> {
    if id != 0 && LastPushed(ops, id) == Some(id) then LastVersion(ops, id) else None
  }

  function Pushes(ops: seq<Op>): nat {
    if ops == [] then 0 else Pushes(ops[..|ops| - 1]) + if ops[|ops| - 1].Push? then 1 else 0
  }

  // ---------- The buffer ----------

  datatype Buffer = Buffer(slots: seq<DataCmd>, newestId: uint16, count: uint8)

  const NO_CMD := DataCmd(0, 0, 0)

  function Empty(): Buffer {
    var n := NO_CMD;
    Buffer([n, n, n, n, n, n, n, n, n, n], 0, 0)
  }

  function Put(b: Buffer, cmd: DataCmd): Buffer
    requires |b.slots| == CMD_BUFFER_LEN && cmd.id != 0
  {
    b.(slots := b.slots[Slot(cmd.id) := cmd])
  }

  function ApplyOp(b: Buffer, o: Op): (r: Buffer)
    requires |b.slots| == CMD_BUFFER_LEN && o.cmd.id != 0
    ensures |r.slots| == CMD_BUFFER_LEN
  {
    match o
    case Push(cmd) =>
      Put(b, cmd).(newestId := cmd.id, count := if b.count < CMD_BUFFER_LEN then b.count + 1 else b.count)
    case Modify(cmd) => if b.slots[Slot(cmd.id)].id == cmd.id then Put(b, cmd) else b
  }

  function Fetch(b: Buffer, id: nat): Option<DataCmd>
    requires |b.slots| == CMD_BUFFER_LEN
  {
    if id != 0 && b.slots[Slot(id)].id == id then Some(b.slots[Slot(id)]) else None
  }

  function BufferOf(ops: seq<Op>): (r: Buffer)
    requires ValidOps(ops)
    ensures |r.slots| == CMD_BUFFER_LEN
  {
    if ops == [] then Empty() else ApplyOp(BufferOf(ops[..|ops| - 1]), ops[|ops| - 1])
  }

  /** A slot holds the id pushed into it last, and 0 if there is none. */
  lemma {:induction false} SlotHoldsLastPushed(ops: seq<Op>, id: nat)
    requires ValidOps(ops) && id != 0
    ensures BufferOf(ops).slots[Slot(id)].id
         == if LastPushed(ops, id).Some? then LastPushed(ops, id).value else 0
  {
    if ops != [] {
      SlotHoldsLastPushed(ops[..|ops| - 1], id);
    }
  }

  /** A pushed id is in the history with some version. */
  lemma {:induction false} PushedHasVersion(ops: seq<Op>, id: nat)
    requires id != 0 && LastPushed(ops, id) == Some(id)
    ensures LastVersion(ops, id).Some?
  {
    if ops[|ops| - 1].cmd.id != id { PushedHasVersion(ops[..|ops| - 1], id); }
  }

  /** The refinement: after any history, the ten slots answer every id as the full history does. */
  lemma {:induction false} CacheRefinesHistory(ops: seq<Op>, id: nat)
    requires ValidOps(ops)
    ensures Fetch(BufferOf(ops), id) == Lookup(ops, id)
  {
    if id != 0 {
      SlotHoldsLastPushed(ops, id);
      if LastPushed(ops, id) == Some(id) {
        CacheRefinesHistory(ops[..|ops| - 1], id);
        PushedHasVersion(ops, id);
      }
    }
  }

  /** The id's last push is operation `p`, and no other id was pushed into its slot since. */
  ghost predicate InSlotSince(ops: seq<Op>, id: nat, p: nat) {
    && p < |ops| && ops[p].Push? && ops[p].cmd.id == id
    && forall i :: p < i < |ops| && ops[i].Push? ==> ops[i].cmd.id == id || (ops[i].cmd.id - id) % 10 != 0
  }

  /** `cmd` is the command of operation `v`, the last one with that id. */
  ghost predicate LastOf(ops: seq<Op>, id: nat, v: nat, cmd: DataCmd) {
    v < |ops| && ops[v].cmd == cmd && cmd.id == id && forall i :: v < i < |ops| ==> ops[i].cmd.id != id
  }

  lemma {:induction false} LastPushedMeans(ops: seq<Op>, id: nat)
    requires ValidOps(ops) && id != 0
    ensures LastPushed(ops, id) == Some(id) <==> exists p: nat :: InSlotSince(ops, id, p)
  {
    if ops != [] {
      var n := |ops| - 1;
      var most, o := ops[..n], ops[n];
      LastPushedMeans(most, id);
      SameSlot(o.cmd.id, id);
      if o.Push? && o.cmd.id == id {
        assert InSlotSince(ops, id, n);
      } else if p: nat :| InSlotSince(ops, id, p) {
        assert p < n && InSlotSince(most, id, p);
      } else if p: nat :| InSlotSince(most, id, p) {
        assert o.Push? && Slot(o.cmd.id) != Slot(id) ==> InSlotSince(ops, id, p);
        assert !o.Push? ==> InSlotSince(ops, id, p);
      }
    }
  }

  lemma {:induction false} LastVersionMeans(ops: seq<Op>, id: nat, cmd: DataCmd)
    ensures LastVersion(ops, id) == Some(cmd) <==> exists v: nat :: LastOf(ops, id, v, cmd)
  {
    if ops != [] {
      var n := |ops| - 1;
      LastVersionMeans(ops[..n], id, cmd);
      if ops[n].cmd.id == id {
        if ops[n].cmd == cmd { assert LastOf(ops, id, n, cmd); }
      } else {
        LastOfMost(ops, ops[..n], id, cmd);
      }
    }
  }

  lemma LastOfMost(ops: seq<Op>, most: seq<Op>, id: nat, cmd: DataCmd)
    requires ops != [] && most == ops[..|ops| - 1] && ops[|ops| - 1].cmd.id != id
    ensures (exists v: nat :: LastOf(ops, id, v, cmd)) <==> exists v: nat :: LastOf(most, id, v, cmd)
  {
    if v: nat :| LastOf(ops, id, v, cmd) {
      assert LastOf(most, id, v, cmd);
    }
    if v: nat :| LastOf(most, id, v, cmd) {
      assert LastOf(ops, id, v, cmd);
    }
  }

  /** What a lookup finds, in positions of the history: an id that was pushed, with no other id ten or a
      multiple of ten away pushed since, and the last command under that id. */
  lemma LookupMeans(ops: seq<Op>, id: nat, cmd: DataCmd)
    requires ValidOps(ops)
    ensures Lookup(ops, id) == Some(cmd)
            <==> id != 0 && (exists p: nat :: InSlotSince(ops, id, p))
                 && exists v: nat :: LastOf(ops, id, v, cmd)
  {
    hide LastPushed, LastVersion;
    if id != 0 { LastPushedMeans(ops, id); }
    LastVersionMeans(ops, id, cmd);
  }

  /** newest_id is the id pushed last, whatever was modified since, and 0 before the first push. */
  lemma {:induction false} NewestIsLastPush(ops: seq<Op>, p: nat)
    requires ValidOps(ops) && p <= |ops| && forall i :: p <= i < |ops| ==> ops[i].Modify?
    requires p == 0 || ops[p - 1].Push?
    ensures BufferOf(ops).newestId == if p == 0 then 0 else ops[p - 1].cmd.id
  {
    if p < |ops| { NewestIsLastPush(ops[..|ops| - 1], p); }
  }

  /** A command that was just pushed is found. */
  lemma TakeAfterPush(ops: seq<Op>, cmd: DataCmd)
    requires cmd.id != 0
    ensures Lookup(ops + [Push(cmd)], cmd.id) == Some(cmd)
  {
  }

  lemma BufferGrows(ops: seq<Op>, o: Op)
    requires ValidOps(ops) && o.cmd.id != 0
    ensures ValidOps(ops + [o]) && BufferOf(ops + [o]) == ApplyOp(BufferOf(ops), o)
  {
    assert (ops + [o])[..|ops|] == ops;
  }

  /** A modification changes the answer for its own id only, and only if there was one. */
  lemma ModifyOnlyOwn(ops: seq<Op>, cmd: DataCmd)
    ensures forall id :: id != cmd.id ==> Lookup(ops + [Modify(cmd)], id) == Lookup(ops, id)
    ensures Lookup(ops, cmd.id).Some? ==> Lookup(ops + [Modify(cmd)], cmd.id) == Some(cmd)
  {
    assert (ops + [Modify(cmd)])[..|ops|] == ops;
  }

  // ---------- Consecutive ids ----------

  ghost predicate Consecutive(ops: seq<Op>, first: nat) {
    first > 0 && forall i :: 0 <= i < |ops| ==> ops[i].Push? && ops[i].cmd.id == first + i
  }

  /** The sliding window: after pushes of consecutive ids exactly the last ten are found. */
  lemma {:induction false} SlidingWindow(ops: seq<Op>, first: nat, id: nat)
    requires ValidOps(ops) && Consecutive(ops, first)
    ensures Fetch(BufferOf(ops), id)
         == if first <= id < first + |ops| <= id + CMD_BUFFER_LEN then Some(ops[id - first].cmd) else None
  {
    if ops != [] && id != 0 {
      var most, j := ops[..|ops| - 1], ops[|ops| - 1].cmd.id;
      hide Slot;
      SlidingWindow(most, first, id);
      if id <= j <= id + CMD_BUFFER_LEN { SlotComesRound(id, j); }
      assert BufferOf(ops) == ApplyOp(BufferOf(most), ops[|ops| - 1]);
    }
  }

  lemma SlotComesRound(i: nat, j: nat)
    requires 0 < i <= j <= i + CMD_BUFFER_LEN
    ensures Slot(i) == Slot(j) <==> j == i || j == i + CMD_BUFFER_LEN
  {
  }

  lemma SameSlot(i: nat, j: nat)
    requires i != 0 && j != 0
    ensures Slot(i) == Slot(j) <==> (i - j) % CMD_BUFFER_LEN == 0
  {
  }

  function Occupied(slots: seq<DataCmd>): nat {
    if slots == [] then 0
    else Occupied(slots[..|slots| - 1]) + if slots[|slots| - 1].id != 0 then 1 else 0
  }

  lemma {:induction false} OccupiedAfterPut(slots: seq<DataCmd>, k: nat, cmd: DataCmd)
    requires k < |slots| && cmd.id != 0
    ensures Occupied(slots[k := cmd]) == Occupied(slots) + if slots[k].id == 0 then 1 else 0
  {
    var n := |slots| - 1;
    if k == n {
      assert slots[k := cmd][..n] == slots[..n];
    } else {
      OccupiedAfterPut(slots[..n], k, cmd);
      assert slots[k := cmd][..n] == slots[..n][k := cmd];
    }
  }

  lemma {:induction false} OccupiedBound(slots: seq<DataCmd>)
    ensures Occupied(slots) <= |slots|
    ensures Occupied(slots) == |slots| ==> forall i :: 0 <= i < |slots| ==> slots[i].id != 0
  {
    if slots != [] { OccupiedBound(slots[..|slots| - 1]); }
  }

  /** In general `count` is the number of pushes up to ten, and at least the number of occupied slots. */
  lemma {:induction false} CountIsPushes(ops: seq<Op>)
    requires ValidOps(ops)
    ensures var b := BufferOf(ops);
            b.count == (if Pushes(ops) < CMD_BUFFER_LEN then Pushes(ops) else CMD_BUFFER_LEN)
            && Occupied(b.slots) <= b.count
  {
    if ops == [] {
      EmptyIsUnoccupied();
    } else {
      var before := BufferOf(ops[..|ops| - 1]);
      var o := ops[|ops| - 1];
      CountIsPushes(ops[..|ops| - 1]);
      OccupiedAfterPut(before.slots, Slot(o.cmd.id), o.cmd);
      OccupiedBound(BufferOf(ops).slots);
    }
  }

  lemma {:induction false} NoneOccupied(slots: seq<DataCmd>)
    requires forall i :: 0 <= i < |slots| ==> slots[i].id == 0
    ensures Occupied(slots) == 0
  {
    if slots != [] { NoneOccupied(slots[..|slots| - 1]); }
  }

  lemma EmptyIsUnoccupied()
    ensures Occupied(Empty().slots) == 0
  {
    NoneOccupied(Empty().slots);
  }

  /** The slots that pushes went to. */
  function SlotsPushed(ops: seq<Op>): set<nat>
    requires ValidOps(ops)
  {
    if ops == [] then {}
    else
      var o := ops[|ops| - 1];
      SlotsPushed(ops[..|ops| - 1]) + if o.Push? then {Slot(o.cmd.id)} else {}
  }

  /** No two pushes went to the same slot. */
  ghost predicate NoSlotTwice(ops: seq<Op>)
    requires ValidOps(ops)
  {
    forall i, j :: 0 <= i < j < |ops| && ops[i].Push? && ops[j].Push? ==> Slot(ops[i].cmd.id) != Slot(ops[j].cmd.id)
  }

  /** The occupied slots are those that pushes went to; a modification occupies none. */
  lemma {:induction false} OccupiedWasPushed(ops: seq<Op>, k: nat)
    requires ValidOps(ops) && k < CMD_BUFFER_LEN
    ensures k in SlotsPushed(ops) <==> BufferOf(ops).slots[k].id != 0
  {
    if ops != [] { OccupiedWasPushed(ops[..|ops| - 1], k); }
  }

  lemma {:induction false} OccupiedIsPushed(ops: seq<Op>)
    requires ValidOps(ops)
    ensures Occupied(BufferOf(ops).slots) == |SlotsPushed(ops)|
  {
    if ops == [] {
      EmptyIsUnoccupied();
    } else {
      var most, o := ops[..|ops| - 1], ops[|ops| - 1];
      OccupiedIsPushed(most);
      OccupiedWasPushed(most, Slot(o.cmd.id));
      var slots, k := BufferOf(most).slots, Slot(o.cmd.id);
      OccupiedAfterPut(slots, k, o.cmd);
      assert SlotsPushed(ops) == SlotsPushed(most) + if o.Push? then {k} else {};
      assert o.Push? || slots[k].id == o.cmd.id ==> BufferOf(ops).slots == slots[k := o.cmd];
    }
  }

  lemma {:induction false} PushedAt(ops: seq<Op>, k: nat)
    requires ValidOps(ops)
    ensures k in SlotsPushed(ops) <==> exists i :: 0 <= i < |ops| && ops[i].Push? && Slot(ops[i].cmd.id) == k
  {
    if ops != [] {
      var most := ops[..|ops| - 1];
      PushedAt(most, k);
      if k in SlotsPushed(most) {
        var i :| 0 <= i < |most| && most[i].Push? && Slot(most[i].cmd.id) == k;
        assert ops[i] == most[i];
      } else if i :| 0 <= i < |ops| && ops[i].Push? && Slot(ops[i].cmd.id) == k {
        assert i < |most| ==> most[i] == ops[i];
      }
    }
  }

  /** There are as many such slots as pushes exactly if no slot was pushed twice. */
  lemma {:induction false} DistinctSlots(ops: seq<Op>)
    requires ValidOps(ops)
    ensures |SlotsPushed(ops)| <= Pushes(ops)
    ensures |SlotsPushed(ops)| == Pushes(ops) <==> NoSlotTwice(ops)
  {
    if ops != [] {
      var most, o := ops[..|ops| - 1], ops[|ops| - 1];
      DistinctSlots(most);
      PushedAt(most, Slot(o.cmd.id));
      assert NoSlotTwice(ops) ==> NoSlotTwice(most);
    }
  }

  ghost predicate AllSlotsPushed(ops: seq<Op>)
    requires ValidOps(ops)
  {
    forall k :: 0 <= k < CMD_BUFFER_LEN ==> k in SlotsPushed(ops)
  }

  lemma AllSlots(ops: seq<Op>)
    requires ValidOps(ops)
    ensures |SlotsPushed(ops)| == CMD_BUFFER_LEN <==> AllSlotsPushed(ops)
  {
    hide BufferOf, SlotsPushed;
    OccupiedIsPushed(ops);
    OccupiedBound(BufferOf(ops).slots);
    forall k: nat | k < CMD_BUFFER_LEN ensures k in SlotsPushed(ops) <==> BufferOf(ops).slots[k].id != 0 {
      OccupiedWasPushed(ops, k);
    }
    if AllSlotsPushed(ops) { AllOccupied(BufferOf(ops).slots); }
  }

  lemma {:induction false} AllOccupied(slots: seq<DataCmd>)
    requires forall i :: 0 <= i < |slots| ==> slots[i].id != 0
    ensures Occupied(slots) == |slots|
  {
    if slots != [] { AllOccupied(slots[..|slots| - 1]); }
  }

  /** After any history, `count` is the number of occupied slots exactly if no slot was pushed twice or all
      ten were pushed. */
  lemma CountIsOccupied(ops: seq<Op>)
    requires ValidOps(ops)
    ensures BufferOf(ops).count == Occupied(BufferOf(ops).slots)
            <==> NoSlotTwice(ops) || AllSlotsPushed(ops)
  {
    hide BufferOf, SlotsPushed, NoSlotTwice, AllSlotsPushed, Pushes, Occupied;
    CountIsPushes(ops);
    OccupiedIsPushed(ops);
    OccupiedBound(BufferOf(ops).slots);
    DistinctSlots(ops);
    AllSlots(ops);
  }

  function PushedTimes(cmd: DataCmd, n: nat): seq<Op> {
    if n == 0 then [] else PushedTimes(cmd, n - 1) + [Push(cmd)]
  }

  /** It is not in general: one id pushed n times occupies one slot and counts n, or ten. */
  lemma OneIdPushedAgain(cmd: DataCmd, n: nat)
    requires cmd.id != 0 && n >= 1
    ensures ValidOps(PushedTimes(cmd, n))
    ensures var b := BufferOf(PushedTimes(cmd, n));
            Occupied(b.slots) == 1 && b.count == if n < CMD_BUFFER_LEN then n else CMD_BUFFER_LEN
  {
    OnlyPushesOf(cmd, n);
    OccupiedIsPushed(PushedTimes(cmd, n));
    CountIsPushes(PushedTimes(cmd, n));
  }

  lemma {:induction false} OnlyPushesOf(cmd: DataCmd, n: nat)
    requires cmd.id != 0
    ensures ValidOps(PushedTimes(cmd, n)) && Pushes(PushedTimes(cmd, n)) == n
    ensures SlotsPushed(PushedTimes(cmd, n)) == if n == 0 then {} else {Slot(cmd.id)}
  {
    hide SlotsPushed, Pushes, ValidOps;
    if n == 0 {
      NothingPushed();
    } else {
      OnlyPushesOf(cmd, n - 1);
      PushAdds(PushedTimes(cmd, n - 1), cmd);
    }
  }

  lemma NothingPushed()
    ensures ValidOps([]) && Pushes([]) == 0 && SlotsPushed([]) == {}
  {
  }

  lemma PushAdds(ops: seq<Op>, cmd: DataCmd)
    requires ValidOps(ops) && cmd.id != 0
    ensures ValidOps(ops + [Push(cmd)]) && Pushes(ops + [Push(cmd)]) == Pushes(ops) + 1
    ensures SlotsPushed(ops + [Push(cmd)]) == SlotsPushed(ops) + {Slot(cmd.id)}
  {
    assert (ops + [Push(cmd)])[..|ops|] == ops;
  }

  /** For consecutive ids `count` is the number of occupied slots. */
  lemma {:induction false} CountOfConsecutive(ops: seq<Op>, first: nat)
    requires ValidOps(ops) && Consecutive(ops, first)
    ensures var b := BufferOf(ops);
            b.count == Occupied(b.slots) == if |ops| < CMD_BUFFER_LEN then |ops| else CMD_BUFFER_LEN
  {
    if ops == [] {
      EmptyIsUnoccupied();
    } else {
      var most, cmd := ops[..|ops| - 1], ops[|ops| - 1].cmd;
      CountOfConsecutive(most, first);
      if |most| < CMD_BUFFER_LEN {
        NoEarlierInSlot(most, first, cmd.id);
        SlotHoldsLastPushed(most, cmd.id);
      }
      OccupiedAfterPut(BufferOf(most).slots, Slot(cmd.id), cmd);
      OccupiedBound(BufferOf(ops).slots);
    }
  }

  lemma {:induction false} NoEarlierInSlot(ops: seq<Op>, first: nat, id: nat)
    requires Consecutive(ops, first) && first + |ops| <= id < first + CMD_BUFFER_LEN
    ensures LastPushed(ops, id) == None
  {
    if ops != [] {
      NoEarlierInSlot(ops[..|ops| - 1], first, id);
      SameSlot(ops[|ops| - 1].cmd.id, id);
    }
  }

  // ---------- The global buffer and its functions ----------

  /** What cJSON makes of a message: nothing, or an object whose three members may be numbers. */
  datatype Json = Invalid | Object(cmd: Option<int>, id: Option<int>, intensity: Option<int>)

  /** The casts of parse_json. */
  function CommandOf(cmd: int, id: int, intensity: int): DataCmd {
    DataCmd(id % 0x1_0000, U32(cmd), intensity % 0x100)
  }

  /** The fields are the message's cmd, id and intensity: exactly, when those are in range, and otherwise
      what is left of them in 32, 16 and 8 bits. */
  lemma CommandFields(cmd: int, id: int, intensity: int)
    ensures var c := CommandOf(cmd, id, intensity);
            && (c.cmd - cmd) % 0x1_0000_0000 == 0 && (c.id - id) % 0x1_0000 == 0
            && (c.intensity - intensity) % 0x100 == 0
            && (0 <= cmd < 0x1_0000_0000 ==> c.cmd == cmd) && (0 <= id < 0x1_0000 ==> c.id == id)
            && (0 <= intensity < 0x100 ==> c.intensity == intensity)
  {
  }

  /** From the message to the UART: a command type up to 99999, a nonzero id and an intensity that fit are
      what the frame of the command decodes to. */
  lemma MessageOnWire(cmd: int, id: int, intensity: int)
    requires 0 <= cmd <= 99999 && 0 < id < 0x1_0000 && 0 <= intensity < 0x100
    ensures DecodeCommand(FormatCommand(CommandOf(cmd, id, intensity))) == Some((cmd, intensity, id))
  {
    hide DecodeCommand, FormatCommand;
    CommandFields(cmd, id, intensity);
    OrdinaryCommandsFit(CommandOf(cmd, id, intensity));
  }

  predicate IsCommand(j: Json) { j.Object? && j.cmd.Some? && j.id.Some? && j.intensity.Some? }

  class CmdBuffer {
    var buffer: array<DataCmd>
    var newestId: uint16
    var count: uint8
    ghost var ops: seq<Op>

    ghost function View(): Buffer
      reads this, buffer
    {
      Buffer(buffer[..], newestId, count)
    }

    ghost predicate Valid()
      reads this, buffer
    {
      ValidOps(ops) && View() == BufferOf(ops)
    }

    constructor ()
      ensures Valid() && ops == [] && fresh(buffer)
    {
      buffer := new DataCmd[CMD_BUFFER_LEN](_ => NO_CMD);
      newestId, count, ops := 0, 0, [];
    }

    method Push(cmd: DataCmd) returns (status: Status)
      requires Valid() && cmd.id != 0
      modifies this, buffer
      ensures Valid() && buffer == old(buffer) && status == OK && ops == old(ops) + [Op.Push(cmd)]
    {
      hide BufferOf;
      BufferGrows(ops, Op.Push(cmd));
      IndexIsSlot(cmd.id);
      buffer[SlotIndex(cmd.id)] := cmd;
      newestId := cmd.id;
      if count < CMD_BUFFER_LEN {
        count := count + 1;
      }
      ops := ops + [Op.Push(cmd)];
      status := OK;
    }

    method TakeCmd(id: uint16) returns (status: Status, command: DataCmd)
      requires Valid()
      ensures status == OK <==> Lookup(ops, id).Some?
      ensures status == OK ==> Lookup(ops, id) == Some(command) && command.id == id
      ensures status == if id == 0 then NOT_VALID_ID else if Lookup(ops, id).Some? then OK else ID_NOT_FOUND
    {
      command := NO_CMD;
      if id == 0 {
        return NOT_VALID_ID, command;
      }
      CacheRefinesHistory(ops, id);
      IndexIsSlot(id);
      var index := SlotIndex(id);
      if buffer[index].id != id {
        return ID_NOT_FOUND, command;
      }
      return OK, buffer[index];
    }

    /** `command` is None for a null pointer. The caller's command must carry the id it is stored under. */
    method ModifyCmd(id: uint16, command: Option<DataCmd>) returns (status: Status)
      requires Valid() && (command.Some? ==> command.value.id == id)
      modifies this, buffer
      ensures Valid() && buffer == old(buffer) && newestId == old(newestId) && count == old(count)
      ensures status == if id == 0 || command.None? then NOT_VALID_ID
                        else if Lookup(old(ops), id).Some? then OK else ID_NOT_FOUND
      ensures ops == if id == 0 || command.None? then old(ops) else old(ops) + [Modify(command.value)]
      ensures status == OK ==> Lookup(ops, id) == command
      ensures forall other :: other != id ==> Lookup(ops, other) == Lookup(old(ops), other)
      ensures status != OK ==> buffer[..] == old(buffer[..])
    {
      if id == 0 || command.None? {
        return NOT_VALID_ID;
      }
      hide BufferOf, Lookup;
      ghost var before := ops;
      CacheRefinesHistory(before, id);
      BufferGrows(before, Modify(command.value));
      ModifyOnlyOwn(before, command.value);
      ops := before + [Modify(command.value)];
      IndexIsSlot(id);
      var index := SlotIndex(id);
      if buffer[index].id != id {
        return ID_NOT_FOUND;
      }
      buffer[index] := command.value;
      return OK;
    }

    /** parse_json. An id that is 0 as a uint16_t must not reach `push`. */
    method ParseJson(j: Json) returns (status: Status, retId: Option<uint16>)
      requires Valid() && (IsCommand(j) ==> j.id.value % 0x1_0000 != 0)
      modifies this, buffer
      ensures Valid() && buffer == old(buffer)
      ensures status == if IsCommand(j) then OK else PARSE_ERROR
      ensures status == OK ==> var c := CommandOf(j.cmd.value, j.id.value, j.intensity.value);
                               retId == Some(c.id) && ops == old(ops) + [Op.Push(c)]
                               && (c.id - j.id.value) % 0x1_0000 == 0 && (c.cmd - j.cmd.value) % 0x1_0000_0000 == 0
                               && (c.intensity - j.intensity.value) % 0x100 == 0
      ensures status != OK ==> ops == old(ops) && View() == old(View())
    {
      retId := None;
      if j.Invalid? || j.cmd.None? || j.id.None? {
        return PARSE_ERROR, retId;
      }
      var id: uint16 := j.id.value % 0x1_0000;
      retId := Some(id);
      if j.intensity.None? {
        return PARSE_ERROR, retId;
      }
      CommandFields(j.cmd.value, j.id.value, j.intensity.value);
      var pushed := Push(DataCmd(id, U32(j.cmd.value), j.intensity.value % 0x100));
      status := OK;
    }
  }
}
