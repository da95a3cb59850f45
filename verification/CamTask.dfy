/** The static state and the two tasks of cam_task.c.

    The capture task owns LatestFrame; the upload task is Uploader. Every action of the upload task that
    could be preempted is preceded by `Interfere`, any number of capture steps of DoubleBuffer. */
module CamTask {
  import opened Numerals
  import opened ChunkedCoding
  import opened MultipartStream
  import opened Backoff
  import DB = DoubleBuffer

  class LatestFrame {
    const buf0: array<char>
    const buf1: array<char>
    var bufIdx: nat
    var jpegLen: nat
    var seqNo: nat                   // s_latest_seq, a uint32_t
    var store: Option<DB.Store>      // the locals of latest_frame_store while it runs
    ghost var published: seq<string>
    ghost const start: DB.State      // what the capture task did from the start on
    ghost var run: seq<DB.Action>

    ghost function View(): DB.State
      reads this, buf0, buf1
    {
      DB.State([buf0[..], buf1[..]], bufIdx, jpegLen, published, store)
    }

    ghost predicate Valid()
      reads this, buf0, buf1
    {
      && buf0 != buf1 && DB.Inv(View()) && seqNo == U32(|published|)
      && DB.Initial(start) && DB.Inv(start) && View() == DB.Run(start, run)
    }

    constructor ()
      ensures Valid() && DB.Initial(start) && run == [] && fresh(buf0) && fresh(buf1)
    {
      var a, b := new char[DB.SIZE], new char[DB.SIZE];
      buf0, buf1 := a, b;
      bufIdx, jpegLen, seqNo, store, published := 0, 0, 0, None, [];
      start, run := DB.State([a[..], b[..]], 0, 0, [], None), [];
    }

    /** The statements since `before` were the step `a`. */
    ghost method Did(before: DB.State, a: DB.Action)
      requires DB.Initial(start) && DB.Inv(start) && before == DB.Run(start, run) && View() == DB.Apply(before, a)
      requires buf0 != buf1 && DB.Inv(before) && seqNo == U32(|published|)
      modifies this`run
      ensures Valid() && run == old(run) + [a]
    {
      hide DB.Inv, DB.Apply, DB.Run;
      DB.StepKeepsInv(before, a);
      DB.RunOne(start, run, a);
      run := run + [a];
    }

    /** latest_frame_store is entered with a frame that fits. */
    method BeginStore(frame: string)
      requires Valid() && DB.Enabled(View(), DB.Begin(frame))
      modifies this`store, this`run
      ensures Valid() && View() == DB.Apply(old(View()), DB.Begin(frame)) && run == old(run) + [DB.Begin(frame)]
    {
      hide DB.Inv, DB.Run;
      store := Some(DB.Store(frame, 0));
      Did(old(View()), DB.Begin(frame));
    }

    /** One byte into the unpublished buffer. */
    method CopyByte()
      requires Valid() && DB.Enabled(View(), DB.Copy)
      modifies this`store, this`run, buf0, buf1
      ensures Valid() && View() == DB.Apply(old(View()), DB.Copy) && run == old(run) + [DB.Copy]
    {
      hide DB.Inv, DB.Run;
      DB.InvBounds(View());
      var st := store.value;
      var dst := if bufIdx == 0 then buf1 else buf0;
      dst[st.done] := st.src[st.done];
      store := Some(st.(done := st.done + 1));
      assert View().bufs == DB.Apply(old(View()), DB.Copy).bufs;
      Did(old(View()), DB.Copy);
    }

    method Publish()
      requires Valid() && DB.Enabled(View(), DB.Publish)
      modifies this
      ensures Valid() && View() == DB.Apply(old(View()), DB.Publish) && run == old(run) + [DB.Publish]
    {
      hide DB.Inv, DB.Run, U32;
      DB.InvBounds(View());
      ModuloSuccessor(|published|);
      bufIdx := if bufIdx == 0 then 1 else 0;
      jpegLen := |store.value.src|;
      seqNo := U32(seqNo + 1);
      published := published + [store.value.src];
      store := None;
      Did(old(View()), DB.Publish);
    }

    /** latest_frame_store, seen by the capture task: no one else writes these fields. */
    method StoreFrame(frame: string)
      requires Valid() && store.None? && |frame| <= DB.SIZE
      modifies this, buf0, buf1
      ensures Valid() && store.None?
      ensures published == old(published) + [frame] && DB.Begun(View()) == DB.Begun(old(View())) + 1
    {
      hide DB.Inv, DB.Run;
      BeginStore(frame);
      while store.value.done < |frame|
        invariant Valid() && store.Some? && store.value.src == frame && store.value.done <= |frame|
        invariant published == old(published)
        decreases |frame| - store.value.done
      {
        DB.InvBounds(View());
        CopyByte();
      }
      Publish();
    }

    /** One step of the capture task, on any frame the camera may hand it; one that does not fit is skipped. */
    method CaptureStep()
      requires Valid()
      modifies this, buf0, buf1
      ensures Valid() && old(run) <= run
    {
      hide DB.Inv, DB.Run;
      DB.InvBounds(View());
      if store.None? {
        var frame: string := *;
        if |frame| <= DB.SIZE {
          BeginStore(frame);
        }
      } else if store.value.done < |store.value.src| {
        CopyByte();
      } else {
        Publish();
      }
    }

    /** The capture task runs for any number of steps. */
    method Interfere()
      requires Valid()
      modifies this, buf0, buf1
      ensures Valid() && old(run) <= run && View() == DB.Run(old(View()), run[|old(run)|..])
      ensures old(published) <= published
    {
      hide DB.Inv, DB.Run;
      var n: nat := *;
      while n > 0
        invariant Valid() && old(run) <= run
      {
        CaptureStep();
        n := n - 1;
      }
      ghost var more := run[|old(run)|..];
      assert run == old(run) + more;
      DB.RunConcat(start, old(run), more);
      DB.RunKeepsInv(DB.Run(start, old(run)), more);
    }

    /** latest_frame_snapshot: the newest published frame, unless there is none, it is empty, or its
        32-bit sequence number is 0. */
    method Snapshot() returns (ok: bool, idx: nat, len: nat, no: nat)
      requires Valid()
      ensures ok <==> U32(|published|) != 0 && published[|published| - 1] != ""
      ensures ok ==> idx == |published| % 2 && len == |published[|published| - 1]|
                     && no == U32(|published|) && len <= DB.SIZE
    {
      idx, len, no := bufIdx, jpegLen, seqNo;
      ok := !(no == 0 || len == 0);
    }

    method ByteAt(idx: nat, i: nat) returns (c: char)
      requires Valid() && idx < 2 && i < DB.SIZE
      ensures c == View().bufs[idx][i]
    {
      c := if idx == 0 then buf0[i] else buf1[i];
    }
  }

  /** An esp_http_client connection, with the Content-Type of its request, the body bytes that reached the
      network on it and whether a write has failed on it. */
  class HttpClient {
    var contentType: string
    var wire: string
    var broken: bool

    constructor ()
      ensures contentType == "" && wire == "" && !broken
    {
      contentType, wire, broken := "", "", false;
    }
  }

  /** What a write is given: constant text, or a pointer into a frame buffer. */
  datatype Source = Text(bytes: string) | Frame(idx: nat, len: nat) {
    function Length(): nat { if Text? then |bytes| else len }

    predicate InBounds() { Frame? ==> idx < 2 && len <= DB.SIZE }
  }

  /** `got` is the start of what `src` holds: text, or the bytes of a buffer as they stood when each was read,
      after at[0], at[1], ... steps of the capture task's run. */
  ghost predicate Carries(start: DB.State, run: seq<DB.Action>, src: Source, from: nat, got: string, at: seq<nat>) {
    && |got| <= src.Length() && from <= |run|
    && match src
       case Text(bytes) => got <= bytes
       case Frame(idx, _) => DB.ReadAt(start, run, idx, from, got, at)
  }

  lemma CarriesOn(start: DB.State, run: seq<DB.Action>, longer: seq<DB.Action>, src: Source, from: nat, got: string,
                  at: seq<nat>)
    requires Carries(start, run, src, from, got, at) && run <= longer
    ensures Carries(start, longer, src, from, got, at)
  {
    hide DB.ReadAt;
    if src.Frame? { DB.ReadAtGrows(start, run, longer, src.idx, from, got, at); }
  }

  lemma CarriesNothing(start: DB.State, run: seq<DB.Action>, src: Source, from: nat)
    requires from <= |run|
    ensures Carries(start, run, src, from, "", [])
  {
  }

  /** What was not sent is read now. */
  lemma {:induction false} CarryRest(start: DB.State, run: seq<DB.Action>, src: Source, from: nat, got: string,
                                     at: seq<nat>)
    returns (content: string, moments: seq<nat>)
    requires Carries(start, run, src, from, got, at)
    ensures Carries(start, run, src, from, content, moments) && |content| == src.Length() && got <= content
    decreases src.Length() - |got|
  {
    hide DB.ReadAt, DB.Run, DB.ByteAt;
    if src.Text? {
      content, moments := src.bytes, at;
    } else if |got| == src.Length() {
      content, moments := got, at;
    } else {
      var c := DB.ByteAt(DB.Run(start, run), src.idx, |got|);
      DB.ReadOneMore(start, run, src.idx, from, got, at, c);
      content, moments := CarryRest(start, run, src, from, got + [c], at + [|run|]);
    }
  }

  /** Of the calls i, ..., j - 1 on the network every one succeeded. */
  predicate AllWent(answers: nat -> int, i: nat, j: nat) {
    i <= j && forall k: nat :: i <= k < j ==> answers(k) >= 0
  }

  /** Every one but the last did. */
  predicate LastFailed(answers: nat -> int, i: nat, j: nat) {
    i < j && answers(j - 1) < 0 && AllWent(answers, i, j - 1)
  }

  class Transport {
    const latest: LatestFrame
    const answers: nat -> int   // what the network makes of each write: a failure, or how much it takes
    var calls: nat              // how many writes there were

    constructor (latest: LatestFrame, answers: nat -> int)
      ensures this.latest == latest && this.answers == answers && calls == 0
    {
      this.latest, this.answers, calls := latest, answers, 0;
    }

    /** The next byte is read, after any number of capture steps, and goes out. */
    method SendByte(client: HttpClient, src: Source, ghost from: nat, ghost got: string, ghost at: seq<nat>, k: nat)
      returns (c: char)
      requires latest.Valid() && src.InBounds() && k == |got| < src.Length()
      requires Carries(latest.start, latest.run, src, from, got, at)
      modifies client`wire, latest, latest.buf0, latest.buf1
      ensures latest.Valid() && old(latest.run) <= latest.run && old(latest.published) <= latest.published
      ensures client.wire == old(client.wire) + [c]
      ensures Carries(latest.start, latest.run, src, from, got + [c], at + [|latest.run|])
    {
      hide DB.Inv, DB.Run, DB.ReadAt;
      latest.Interfere();
      CarriesOn(latest.start, old(latest.run), latest.run, src, from, got, at);
      DB.InvBounds(latest.View());
      match src {
        case Text(bytes) => c := bytes[k];
        case Frame(idx, len) =>
          c := latest.ByteAt(idx, k);
          DB.ReadOneMore(latest.start, latest.run, idx, from, got, at, c);
      }
      client.wire := client.wire + [c];
    }

    /** esp_http_client_write, as the network answers: sends some bytes, read one at a time while the capture
        task runs, and returns their number, or fails after any number of them. It never returns 0. The bytes
        before `off` are `sent`, read at `sentAt`. */
    method Write(client: HttpClient, src: Source, off: nat, n: nat, ghost from: nat, ghost sent: string,
                 ghost sentAt: seq<nat>)
      returns (w: int, ghost got: string, ghost at: seq<nat>)
      requires latest.Valid() && src.InBounds() && |sent| == off && 0 < n && off + n <= src.Length()
      requires Carries(latest.start, latest.run, src, from, sent, sentAt)
      modifies this`calls, client, latest, latest.buf0, latest.buf1
      ensures latest.Valid() && old(latest.run) <= latest.run && old(latest.published) <= latest.published
      ensures calls == old(calls) + 1
      ensures w < 0 <==> answers(old(calls)) < 0
      ensures w >= 0 ==> w == |got| - off == if answers(old(calls)) < 1 then 1
                                             else if answers(old(calls)) < n then answers(old(calls)) else n
      ensures client.broken == (old(client.broken) || w < 0) && client.contentType == old(client.contentType)
      ensures sent <= got && client.wire == old(client.wire) + got[off..] && |got| <= off + n
      ensures Carries(latest.start, latest.run, src, from, got, at)
    {
      hide DB.Inv, DB.Begun, LatestFrame.View, LatestFrame.Valid, Carries;
      var answer := answers(calls);
      calls := calls + 1;
      var count := if answer < 1 then 1 else if answer < n then answer else n;
      if answer < 0 {
        count :| 0 <= count <= n;
      }
      var i := 0;
      got, at := sent, sentAt;
      while i < count
        invariant 0 <= i <= count && |got| == off + i && calls == old(calls) + 1
        invariant latest.Valid() && old(latest.run) <= latest.run && old(latest.published) <= latest.published
        invariant sent <= got && client.wire == old(client.wire) + got[off..] && client.broken == old(client.broken)
        invariant client.contentType == old(client.contentType)
        invariant Carries(latest.start, latest.run, src, from, got, at)
      {
        var c := SendByte(client, src, from, got, at, off + i);
        assert (got + [c])[off..] == got[off..] + [c];
        got, at := got + [c], at + [|latest.run|];
        i := i + 1;
      }
      w := if answer < 0 then -1 else count;
      client.broken := client.broken || w < 0;
    }

    /** http_write_exact. */
    method HttpWriteExact(client: HttpClient, src: Source, len: nat, ghost from: nat)
      returns (r: int, ghost got: string, ghost at: seq<nat>)
      requires latest.Valid() && src.InBounds() && len == src.Length() && from <= |latest.run|
      modifies this`calls, client, latest, latest.buf0, latest.buf1
      ensures latest.Valid() && old(latest.run) <= latest.run && old(latest.published) <= latest.published
      ensures r >= 0 ==> r == |got| == len && AllWent(answers, old(calls), calls)
      ensures r < 0 ==> LastFailed(answers, old(calls), calls)
      ensures client.broken == (old(client.broken) || r < 0) && client.contentType == old(client.contentType)
      ensures client.wire == old(client.wire) + got && |got| <= len
      ensures Carries(latest.start, latest.run, src, from, got, at)
    {
      hide DB.Inv, DB.Begun, LatestFrame.View, LatestFrame.Valid;
      var total := 0;
      got, at := "", [];
      assert Carries(latest.start, latest.run, src, from, got, at);
      hide Carries;
      while total < len
        invariant 0 <= total == |got| <= len
        invariant latest.Valid() && old(latest.run) <= latest.run && old(latest.published) <= latest.published
        invariant client.wire == old(client.wire) + got && client.broken == old(client.broken)
        invariant client.contentType == old(client.contentType) && AllWent(answers, old(calls), calls)
        invariant Carries(latest.start, latest.run, src, from, got, at)
        decreases len - total
      {
        ghost var before := got;
        r, got, at := Write(client, src, total, len - total, from, got, at);
        assert got == before + got[total..];
        if r < 0 {
          return;
        }
        total := total + r;
      }
      r := total;
    }

    /** http_write_chunk. Either way `content` has the announced length, whatever the capture task did
        meanwhile; what of it did not go out is what would be read at the end. */
    method HttpWriteChunk(client: HttpClient, src: Source, len: nat, ghost from: nat)
      returns (r: int, ghost content: string, ghost at: seq<nat>)
      requires latest.Valid() && src.InBounds() && len == src.Length() < 0x1_0000_0000 && from <= |latest.run|
      modifies this`calls, client, latest, latest.buf0, latest.buf1
      ensures latest.Valid() && old(latest.run) <= latest.run && old(latest.published) <= latest.published
      ensures client.broken == (old(client.broken) || r < 0) && client.contentType == old(client.contentType)
      ensures r >= 0 ==> AllWent(answers, old(calls), calls)
      ensures r < 0 ==> LastFailed(answers, old(calls), calls)
      ensures |content| == len && Carries(latest.start, latest.run, src, from, content, at)
      ensures r < 0 || r == len
      ensures old(client.wire) <= client.wire <= old(client.wire) + Chunk(content)
      ensures r >= 0 ==> client.wire == old(client.wire) + Chunk(content)
    {
      hide DB.Inv, LatestFrame.View, LatestFrame.Valid, Hex;
      var header := Hex(len) + CRLF;
      Printed32(len);
      assert 0 < |header| < 16; // so the source's check of the size line never fails
      ghost var line, moments;
      r, line, moments := HttpWriteExact(client, Text(header), |header|, |latest.run|);
      if r < 0 || len == 0 {
        CarriesNothing(latest.start, latest.run, src, from);
        content, at := CarryRest(latest.start, latest.run, src, from, "", []);
        CutInFirst(old(client.wire), header, content, CRLF, line);
      }
      if r < 0 {
        return;
      }
      assert line == header;
      if len > 0 {
        ghost var got;
        r, got, at := HttpWriteExact(client, src, len, from);
        content, at := CarryRest(latest.start, latest.run, src, from, got, at);
        CutInSecond(old(client.wire), header, content, CRLF, got);
        if r < 0 {
          return;
        }
        assert content == got;
      }
      assert client.wire == old(client.wire) + header + content;
      ghost var before := latest.run;
      r, line, moments := HttpWriteExact(client, Text(CRLF), 2, |latest.run|);
      CarriesOn(latest.start, before, latest.run, src, from, content, at);
      CutInThird(old(client.wire), header, content, CRLF, line);
      if r < 0 {
        return;
      }
      r := len;
    }
  }

  /** Three pieces `x`, `y`, `z` cut inside one of them. */
  lemma CutInFirst(w: string, x: string, y: string, z: string, got: string)
    requires got <= x
    ensures w <= w + got <= w + (x + y + z)
  {
  }

  lemma CutInSecond(w: string, x: string, y: string, z: string, got: string)
    requires got <= y
    ensures w <= w + x + got <= w + (x + y + z)
  {
    assert w + (x + y + z) == w + x + got + y[|got|..] + z;
  }

  lemma CutInThird(w: string, x: string, y: string, z: string, got: string)
    requires got <= z
    ensures w <= w + x + y + got <= w + (x + y + z)
    ensures got == z ==> w + x + y + got == w + (x + y + z)
  {
    assert w + (x + y + z) == w + x + y + got + z[|got|..];
  }

  /** One upload: the frame's ordinal, the bytes that went out as its part, and after how many steps of the
      capture task the snapshot was taken and each byte was read. */
  datatype Delivery = Delivery(ordinal: nat, content: string, named: nat, at: seq<nat>)

  /** A connection that was closed: its Content-Type and its wire, the uploads first, ..., next - 1 committed
      on it, whether a write failed on it, and the upload it was carrying then. */
  datatype Connection = Connection(contentType: string, wire: string, first: nat, next: nat, broken: bool,
                                   cut: Option<Delivery>)

  ghost function Contents(ds: seq<Delivery>): (r: seq<string>)
    ensures |r| == |ds| && forall i :: 0 <= i < |ds| ==> r[i] == ds[i].content
  {
    if ds == [] then [] else Contents(ds[..|ds| - 1]) + [ds[|ds| - 1].content]
  }

  lemma ContentsSnoc(ds: seq<Delivery>, base: nat, d: Delivery)
    requires base <= |ds|
    ensures Contents((ds + [d])[base..]) == Contents(ds[base..]) + [d.content]
  {
    assert (ds + [d])[base..] == ds[base..] + [d];
    assert (ds[base..] + [d])[..|ds| - base] == ds[base..];
  }

  /** A wire that holds `frames`, cut inside its opening boundary or inside the part `cut` if it was cut. */
  ghost predicate Framed(wire: string, frames: seq<string>, cut: Option<Delivery>) {
    match cut
    case None => wire == StreamOf(frames) || (frames == [] && wire <= StreamOf([]))
    case Some(d) => IsCut(wire, frames, d.content)
  }

  ghost predicate IsCut(wire: string, frames: seq<string>, content: string) {
    content != "" && StreamOf(frames) <= wire <= StreamOf(frames + [content])
  }

  /** The last data byte of the part that was cut got out. */
  predicate GotOut(wire: string, frames: seq<string>, cut: Option<Delivery>) {
    cut.Some? && |UpToFrameEnd(frames, cut.value.content)| <= |wire|
  }

  /** What the server makes of such a wire: a stream that is well framed to its last byte, with the
      committed frames, and what was to be the next one exactly when its last data byte got out. */
  lemma FramedIsReceived(wire: string, frames: seq<string>, cut: Option<Delivery>)
    requires Framed(wire, frames, cut) && NoneEmpty(frames)
    ensures Live(CONTENT_TYPE, wire)
    ensures Received(CONTENT_TYPE, wire) == frames + if GotOut(wire, frames, cut) then [cut.value.content] else []
  {
    hide StreamOf, Received, Live, UpToFrameEnd;
    if cut.Some? {
      CutStream(frames, cut.value.content, wire);
    } else if wire == StreamOf(frames) {
      StreamRoundTrip(frames);
    } else {
      CutBoundary(wire);
    }
  }

  /** A snapshot after `named` steps of the run names frame `o` by buffer and length. */
  ghost predicate Names(start: DB.State, run: seq<DB.Action>, named: nat, idx: nat, len: nat, o: nat) {
    && named <= |run|
    && var published := DB.StateAt(start, run, named).published;
    && |published| == o >= 1 && idx == o % 2 && 0 < len == |published[o - 1]| <= DB.SIZE
  }

  /** An upload is what was read of the newest frame at its snapshot, byte by byte, in the run. */
  ghost predicate GoodDelivery(d: Delivery, start: DB.State, run: seq<DB.Action>) {
    && Names(start, run, d.named, d.ordinal % 2, |d.content|, d.ordinal)
    && DB.ReadAt(start, run, d.ordinal % 2, d.named, d.content, d.at)
  }

  lemma GoodDeliveryKept(d: Delivery, start: DB.State, run: seq<DB.Action>, longer: seq<DB.Action>)
    requires GoodDelivery(d, start, run) && run <= longer
    ensures GoodDelivery(d, start, longer)
  {
    hide DB.ReadAt, DB.Run;
    NamesKept(start, run, longer, d.named, d.ordinal % 2, |d.content|, d.ordinal);
    DB.ReadAtGrows(start, run, longer, d.ordinal % 2, d.named, d.content, d.at);
  }

  lemma NamesKept(start: DB.State, run: seq<DB.Action>, longer: seq<DB.Action>, named: nat, idx: nat, len: nat, o: nat)
    requires Names(start, run, named, idx, len, o) && run <= longer
    ensures Names(start, longer, named, idx, len, o)
  {
    assert longer[..named] == run[..named];
  }

  lemma NamesFrame(start: DB.State, run: seq<DB.Action>, named: nat, idx: nat, len: nat, o: nat)
    requires Names(start, run, named, idx, len, o)
    ensures idx < 2 && 0 < len <= DB.SIZE && named <= |run|
  {
  }

  /** The frame named then is still the one with that ordinal. */
  lemma NamedFrame(start: DB.State, run: seq<DB.Action>, named: nat, idx: nat, len: nat, o: nat)
    requires DB.Inv(start) && Names(start, run, named, idx, len, o)
    ensures DB.StateAt(start, run, named).published <= DB.Run(start, run).published
  {
    hide DB.Inv, DB.Run;
    DB.RunKeepsInv(start, run[..named]);
    DB.RunSplits(start, run, named, |run|);
    DB.RunKeepsInv(DB.StateAt(start, run, named), run[named..|run|]);
  }

  /** The committed uploads, against the capture task's run so far. */
  ghost predicate GoodDeliveries(ds: seq<Delivery>, start: DB.State, run: seq<DB.Action>) {
    && (forall i :: 0 <= i < |ds| ==> GoodDelivery(ds[i], start, run))
    && (forall i, j :: 0 <= i < j < |ds| ==> ds[i].ordinal < ds[j].ordinal)
  }

  /** The upload a connection was cut in is of a frame newer than those committed before. */
  ghost predicate GoodCuts(cs: seq<Connection>, ds: seq<Delivery>, start: DB.State, run: seq<DB.Action>) {
    forall i :: 0 <= i < |cs| && cs[i].cut.Some? ==>
      && cs[i].broken && GoodDelivery(cs[i].cut.value, start, run)
      && cs[i].next <= |ds| && (0 < cs[i].next ==> ds[cs[i].next - 1].ordinal < cs[i].cut.value.ordinal)
  }

  lemma RunGoesOn(cs: seq<Connection>, ds: seq<Delivery>, start: DB.State, run: seq<DB.Action>, longer: seq<DB.Action>)
    requires GoodDeliveries(ds, start, run) && GoodCuts(cs, ds, start, run) && run <= longer
    ensures GoodDeliveries(ds, start, longer) && GoodCuts(cs, ds, start, longer)
  {
    hide GoodDelivery;
    forall i | 0 <= i < |ds| ensures GoodDelivery(ds[i], start, longer) {
      GoodDeliveryKept(ds[i], start, run, longer);
    }
    forall i | 0 <= i < |cs| && cs[i].cut.Some? ensures GoodDelivery(cs[i].cut.value, start, longer) {
      GoodDeliveryKept(cs[i].cut.value, start, run, longer);
    }
  }

  /** The closed connections carried the uploads 0, ..., base - 1, each the ones after its predecessor. */
  ghost predicate Chain(cs: seq<Connection>, ds: seq<Delivery>, base: nat) {
    if cs == [] then base == 0
    else
      var c := cs[|cs| - 1];
      && c.first <= c.next == base <= |ds| && c.contentType == CONTENT_TYPE
      && Framed(c.wire, Contents(ds[c.first..c.next]), c.cut)
      && Chain(cs[..|cs| - 1], ds, c.first)
  }

  lemma {:induction false} ChainGrows(cs: seq<Connection>, ds: seq<Delivery>, more: seq<Delivery>, base: nat)
    requires Chain(cs, ds, base)
    ensures Chain(cs, ds + more, base)
  {
    if cs != [] {
      var c := cs[|cs| - 1];
      assert (ds + more)[c.first..c.next] == ds[c.first..c.next];
      ChainGrows(cs[..|cs| - 1], ds, more, c.first);
    }
  }

  lemma ChainCloses(cs: seq<Connection>, ds: seq<Delivery>, base: nat, c: Connection)
    requires Chain(cs, ds, base) && c.first == base <= c.next == |ds| && c.contentType == CONTENT_TYPE
    requires Framed(c.wire, Contents(ds[base..]), c.cut)
    ensures Chain(cs + [c], ds, |ds|)
  {
    hide Framed;
    var longer := cs + [c];
    assert longer[..|longer| - 1] == cs;
    assert ds[base..|ds|] == ds[base..];
  }

  lemma GoodDeliveryIsAdded(ds: seq<Delivery>, d: Delivery, start: DB.State, run: seq<DB.Action>)
    requires GoodDeliveries(ds, start, run) && GoodDelivery(d, start, run)
    requires ds != [] ==> ds[|ds| - 1].ordinal < d.ordinal
    ensures GoodDeliveries(ds + [d], start, run)
  {
    hide GoodDelivery;
  }

  lemma GoodCutsKept(cs: seq<Connection>, ds: seq<Delivery>, d: Delivery, start: DB.State, run: seq<DB.Action>)
    requires GoodCuts(cs, ds, start, run)
    ensures GoodCuts(cs, ds + [d], start, run)
  {
    hide GoodDelivery;
  }

  /** A sequence number other than the last one sent belongs to a newer frame, wrapped or not. */
  lemma NewestIsNew(ds: seq<Delivery>, start: DB.State, run: seq<DB.Action>)
    requires DB.Inv(start) && GoodDeliveries(ds, start, run) && ds != []
    requires U32(|DB.Run(start, run).published|) != U32(ds[|ds| - 1].ordinal)
    ensures ds[|ds| - 1].ordinal < |DB.Run(start, run).published|
  {
    hide DB.Inv, DB.Run, DB.ReadAt;
    var d := ds[|ds| - 1];
    NamedFrame(start, run, d.named, d.ordinal % 2, |d.content|, d.ordinal);
  }

  lemma ModuloSuccessor(n: nat)
    ensures U32(U32(n) + 1) == U32(n + 1)
  {
  }

  /** How far the three chunks of a part get the wire. */
  lemma PartPrefixes(sent: seq<string>, content: string, wire: string)
    requires content != ""
    ensures var header := StreamOf(sent) + Chunk(PartHeader(|content|));
            && (StreamOf(sent) <= wire <= header ==> IsCut(wire, sent, content))
            && (header <= wire <= header + Chunk(content) ==> IsCut(wire, sent, content))
            && (header + Chunk(content) <= wire <= header + Chunk(content) + Chunk(PART_TAIL)
                ==> IsCut(wire, sent, content))
            && header + Chunk(content) + Chunk(PART_TAIL) == StreamOf(sent + [content])
  {
    hide Chunk, PartHeader;
    assert (sent + [content])[..|sent|] == sent;
    Prefixes(StreamOf(sent), Chunk(PartHeader(|content|)), Chunk(content), Chunk(PART_TAIL), wire);
  }

  lemma Prefixes(a: string, b: string, c: string, d: string, w: string)
    ensures a + (b + c + d) == a + b + c + d
    ensures a <= w <= a + b || a + b <= w <= a + b + c || a + b + c <= w <= a + b + c + d ==> a <= w <= a + b + c + d
  {
  }

  lemma TextIsCarried(start: DB.State, run: seq<DB.Action>, bytes: string, from: nat, got: string, at: seq<nat>)
    requires Carries(start, run, Text(bytes), from, got, at) && |got| == |bytes|
    ensures got == bytes
  {
  }

  lemma ReadDelivery(start: DB.State, run: seq<DB.Action>, idx: nat, len: nat, o: nat, named: nat, content: string,
                     at: seq<nat>)
    requires Names(start, run, named, idx, len, o) && |content| == len
    requires Carries(start, run, Frame(idx, len), named, content, at)
    ensures content != "" && GoodDelivery(Delivery(o, content, named, at), start, run)
  {
    hide DB.ReadAt, DB.StateAt;
  }

  /** The upload of a frame of which nothing was sent. */
  lemma UnreadDelivery(start: DB.State, run: seq<DB.Action>, idx: nat, len: nat, o: nat, named: nat)
    returns (d: Delivery)
    requires Names(start, run, named, idx, len, o)
    ensures d.ordinal == o && d.named == named && |d.content| == len && d.content != "" && GoodDelivery(d, start, run)
  {
    CarriesNothing(start, run, Frame(idx, len), named);
    var content, at := CarryRest(start, run, Frame(idx, len), named, "", []);
    ReadDelivery(start, run, idx, len, o, named, content, at);
    d := Delivery(o, content, named, at);
  }

  /** There is nothing to send: no frame, an empty one, or the one sent last. */
  predicate NothingNew(published: seq<string>, lastSentSeq: nat) {
    U32(|published|) == 0 || published[|published| - 1] == "" || U32(|published|) == lastSentSeq
  }

  lemma SomethingNew(published: seq<string>, lastSentSeq: nat)
    ensures !NothingNew(published, lastSentSeq)
            <==> |published| % 0x1_0000_0000 != 0 && |published| % 0x1_0000_0000 != lastSentSeq
                 && |published[|published| - 1]| > 0
  {
  }

  datatype OpenResult = Opened | ConnectError | OtherError

  class Uploader {
    const transport: Transport
    var client: HttpClient?          // s_http_client
    var frameCount: nat              // s_frame_count, a uint32_t
    var errorStreak: Streak          // s_http_error_streak
    var lastSentSeq: nat             // last_sent_seq
    var streamOpen: bool             // stream_open
    ghost var deliveries: seq<Delivery>
    ghost var base: nat              // deliveries[base..] were committed on the current connection
    ghost var closed: seq<Connection>
    ghost var outcomes: seq<Outcome>
    ghost var sleptMs: nat           // total backoff slept

    ghost predicate Core()
      reads `deliveries, `lastSentSeq, `base, `closed, transport.latest, transport.latest.buf0, transport.latest.buf1
    {
      && transport.latest.Valid()
      && GoodDeliveries(deliveries, transport.latest.start, transport.latest.run)
      && lastSentSeq == (if deliveries == [] then 0 else U32(deliveries[|deliveries| - 1].ordinal))
      && base <= |deliveries| && Chain(closed, deliveries, base)
      && GoodCuts(closed, deliveries, transport.latest.start, transport.latest.run)
    }

    /** The current connection. */
    ghost predicate Connected()
      reads `deliveries, `base, `streamOpen, `client, `frameCount, client
    {
      && base <= |deliveries|
      && (streamOpen <==> client != null)
      && frameCount == U32(|deliveries| - base)
      && (client == null ==> base == |deliveries|)
      && (client != null ==> client.wire == StreamOf(Contents(deliveries[base..])) && !client.broken
                             && client.contentType == CONTENT_TYPE)
    }

    /** The invariant at the head of the upload loop. */
    ghost predicate Valid()
      reads this, client, transport.latest, transport.latest.buf0, transport.latest.buf1
    {
      && Core() && Connected()
      && errorStreak == StreakAfter(0, outcomes) && sleptMs == SleptOver(0, outcomes)
    }

    constructor (latest: LatestFrame, answers: nat -> int)
      requires latest.Valid()
      ensures Valid() && fresh(transport) && transport.latest == latest && transport.answers == answers
      ensures deliveries == [] && closed == [] && outcomes == [] && client == null
    {
      transport := new Transport(latest, answers);
      client, frameCount, errorStreak, lastSentSeq, streamOpen := null, 0, 0, 0, false;
      deliveries, base, closed, outcomes, sleptMs := [], 0, [], [], 0;
    }

    /** A connection was closed after the first `before` ones, with or without a failed write on it. */
    ghost predicate JustClosed(before: nat, broken: bool)
      reads `closed
    {
      |closed| > before && closed[|closed| - 1].broken == broken
    }

    /** http_client_close_and_reset. `cut` is the upload in which a write failed, if one did. */
    method CloseAndReset(ghost cut: Option<Delivery>)
      requires Core() && (client == null ==> base == |deliveries|)
      requires client != null ==> client.contentType == CONTENT_TYPE
                                  && Framed(client.wire, Contents(deliveries[base..]), cut)
      requires cut.Some? ==> client != null && client.broken
                             && GoodDelivery(cut.value, transport.latest.start, transport.latest.run)
      requires cut.Some? && deliveries != [] ==> deliveries[|deliveries| - 1].ordinal < cut.value.ordinal
      modifies this`client, this`frameCount, this`base, this`closed
      ensures Core() && client == null && frameCount == 0 && base == |deliveries|
      ensures closed ==
                if old(client) == null then old(closed)
                else old(closed) + [Connection(old(client.contentType), old(client.wire), old(base), |deliveries|,
                                               old(client.broken), cut)]
    {
      hide DB.Inv, LatestFrame.View, LatestFrame.Valid, Framed, StreamOf, Chain, Contents, GoodDeliveries, GoodDelivery;
      if client != null {
        ghost var c := Connection(client.contentType, client.wire, base, |deliveries|, client.broken, cut);
        ChainCloses(closed, deliveries, base, c);
        closed := closed + [c];
        base := |deliveries|;
        client := null;
      }
      frameCount := 0;
    }

    /** handle_http_error_streak. */
    method HandleErrorStreak()
      modifies this`errorStreak
      ensures errorStreak == if old(errorStreak) < 255 then old(errorStreak) + 1 else 255
    {
      if errorStreak < 255 {
        errorStreak := errorStreak + 1;
      }
    }

    /** The opening boundary of a new connection. */
    method WriteBoundary(c: HttpClient) returns (ok: bool)
      requires Core() && c.wire == "" && !c.broken && base == |deliveries|
      modifies transport`calls, c, transport.latest, transport.latest.buf0, transport.latest.buf1
      ensures Core() && old(transport.latest.run) <= transport.latest.run
      ensures old(transport.latest.published) <= transport.latest.published
      ensures ok ==> c.wire == StreamOf(Contents(deliveries[base..]))
      ensures Framed(c.wire, Contents(deliveries[base..]), None) && c.broken == !ok
      ensures c.contentType == old(c.contentType)
      ensures ok ==> AllWent(transport.answers, old(transport.calls), transport.calls)
      ensures !ok ==> LastFailed(transport.answers, old(transport.calls), transport.calls)
    {
      hide DB.Inv, LatestFrame.View, LatestFrame.Valid, Chunk, Chain, AllWent, LastFailed;
      ghost var before := transport.latest.run;
      var w, content, at := transport.HttpWriteChunk(c, Text(BOUNDARY_LINE), |BOUNDARY_LINE|, |transport.latest.run|);
      RunGoesOn(closed, deliveries, transport.latest.start, before, transport.latest.run);
      assert deliveries[base..] == [] && content == BOUNDARY_LINE;
      assert "" + Chunk(BOUNDARY_LINE) == Chunk(BOUNDARY_LINE) == StreamOf([]);
      ok := w >= 0;
    }

    /** The client could not be initialised or opened: a connect error counts twice. */
    method RejectOpen(err: OpenResult)
      requires Core() && base == |deliveries| && err != Opened
      requires client != null ==> client.contentType == CONTENT_TYPE && client.wire == "" && !client.broken
      modifies this`client, this`frameCount, this`base, this`closed, this`errorStreak
      ensures Core() && client == null && frameCount == 0 && base == |deliveries| && old(closed) <= closed
      ensures errorStreak == AtMost255(old(errorStreak) + if err == ConnectError then 2 else 1)
    {
      hide Core, StreamOf, Contents;
      HandleErrorStreak();
      if err == ConnectError {
        HandleErrorStreak();
      }
      assert deliveries[base..] == [] && Contents([]) == [];
      CloseAndReset(None);
    }

    /** esp_http_client_init and esp_http_client_set_header. */
    method InitClient(initOk: bool)
      requires Core() && client == null
      modifies `client
      ensures Core() && (client != null <==> initOk)
      ensures client != null ==> fresh(client) && client.contentType == "multipart/x-mixed-replace; boundary=frame"
                                 && client.wire == "" && !client.broken
    {
      hide DB.Inv, LatestFrame.View, LatestFrame.Valid, Chain, GoodDeliveries, GoodCuts;
      if initOk {
        var c := new HttpClient();
        c.contentType := CONTENT_TYPE;
        client := c;
      }
    }

    /** The part of the loop body that makes sure a stream is open; `initOk` and `open` are what
        esp_http_client_init and esp_http_client_open answer. */
    method OpenStream(initOk: bool, open: OpenResult) returns (ok: bool)
      requires Core() && Connected()
      modifies this`client, this`frameCount, this`base, this`closed, this`errorStreak, this`streamOpen
      modifies transport`calls, transport.latest, transport.latest.buf0, transport.latest.buf1
      ensures Core() && Connected() && ok == streamOpen
      ensures client == old(client) || client == null || fresh(client)
      ensures ok ==> errorStreak == old(errorStreak)
      ensures ok ==> AllWent(transport.answers, old(transport.calls), transport.calls)
      ensures ok ==> old(streamOpen) || (initOk && open == Opened)
      ensures !ok ==> !old(streamOpen)
      ensures !ok ==> errorStreak == AtMost255(old(errorStreak) + if initOk && open == ConnectError then 2 else 1)
      ensures !ok && initOk && open == Opened ==>
                LastFailed(transport.answers, old(transport.calls), transport.calls) && JustClosed(|old(closed)|, true)
      ensures old(closed) <= closed && old(transport.latest.run) <= transport.latest.run
      ensures old(transport.latest.published) <= transport.latest.published
    {
      hide DB.Inv, LatestFrame.View, LatestFrame.Valid, StreamOf, Chain, GoodDeliveries, GoodCuts, LastFailed;
      if !streamOpen {
        if client == null {
          InitClient(initOk);
        }
        var err := if client != null then open else OtherError;
        if err != Opened {
          RejectOpen(err);
          return false;
        }
        ok := StartStream();
        return ok;
      }
      ok := true;
    }

    /** The client is open and the boundary is written. */
    method StartStream() returns (ok: bool)
      requires Core() && base == |deliveries| && !streamOpen && frameCount == 0
      requires client != null && client.contentType == CONTENT_TYPE && client.wire == "" && !client.broken
      modifies `client, `frameCount, `base, `closed, `errorStreak, `streamOpen
      modifies transport`calls, client, transport.latest, transport.latest.buf0, transport.latest.buf1
      ensures Core() && Connected() && ok == streamOpen && (client == old(client) || client == null)
      ensures errorStreak == if ok then old(errorStreak) else AtMost255(old(errorStreak) + 1)
      ensures ok ==> AllWent(transport.answers, old(transport.calls), transport.calls)
      ensures !ok ==> LastFailed(transport.answers, old(transport.calls), transport.calls)
      ensures !ok ==> JustClosed(|old(closed)|, true)
      ensures old(closed) <= closed && old(transport.latest.run) <= transport.latest.run
      ensures old(transport.latest.published) <= transport.latest.published
    {
      hide Core, StreamOf, Contents, Framed, AllWent, LastFailed;
      ok := WriteBoundary(client);
      if ok {
        streamOpen := true;
      } else {
        HandleErrorStreak();
        CloseAndReset(None);
      }
    }

    /** The loop body while the camera is suspended. */
    method Suspend()
      requires Core() && Connected()
      modifies `client, `frameCount, `streamOpen, `base, `closed
      ensures Core() && Connected() && !streamOpen && client == null
      ensures old(closed) <= closed
    {
      hide DB.Inv, LatestFrame.View, LatestFrame.Valid, StreamOf, Chain, Contents, GoodDeliveries;
      if streamOpen {
        CloseAndReset(None);
        streamOpen := false;
      }
    }

    /** The loop body up to the comparison with the last frame sent: the backoff and the wait for a
        notification, during which the capture task runs, and the snapshot. */
    method NextFrame() returns (isNew: bool, idx: nat, len: nat, no: nat, ghost o: nat, ghost named: nat)
      requires Core()
      modifies transport.latest, transport.latest.buf0, transport.latest.buf1
      ensures Core() && old(transport.latest.run) <= transport.latest.run
      ensures old(transport.latest.published) <= transport.latest.published
      ensures !isNew <==> NothingNew(transport.latest.published, lastSentSeq)
      ensures isNew ==> Names(transport.latest.start, transport.latest.run, named, idx, len, o)
      ensures isNew ==> o == |transport.latest.published| && named == |transport.latest.run| && no == U32(o)
      ensures isNew && deliveries != [] ==> deliveries[|deliveries| - 1].ordinal < o
    {
      hide Chain, DB.Inv, DB.Run, GoodDeliveries, GoodCuts, GoodDelivery;
      ghost var latest, before := transport.latest, transport.latest.run;
      transport.latest.Interfere();
      RunGoesOn(closed, deliveries, latest.start, before, latest.run);
      var ok;
      ok, idx, len, no := transport.latest.Snapshot();
      isNew := ok && no != lastSentSeq;
      o, named := |latest.published|, |latest.run|;
      assert latest.run[..named] == latest.run;
      if isNew && deliveries != [] {
        NewestIsNew(deliveries, latest.start, latest.run);
      }
    }

    /** How an iteration ended, for the record. */
    ghost method Note(outcome: Outcome, delay: nat)
      requires sleptMs == SleptOver(0, outcomes) && errorStreak == NextStreak(StreakAfter(0, outcomes), outcome)
      requires delay == SleepOf(StreakAfter(0, outcomes), outcome)
      modifies this`outcomes, this`sleptMs
      ensures outcomes == old(outcomes) + [outcome] && sleptMs == old(sleptMs) + delay
      ensures errorStreak == StreakAfter(0, outcomes) && sleptMs == SleptOver(0, outcomes)
    {
      assert (outcomes + [outcome])[..|outcomes|] == outcomes;
      outcomes := outcomes + [outcome];
      sleptMs := sleptMs + delay;
    }

    /** The end of the loop body, after a part was written. */
    method Commit(ghost d: Delivery, no: nat)
      requires Core() && base <= |deliveries| && client != null && streamOpen && !client.broken
      requires client.contentType == CONTENT_TYPE
      requires client.wire == StreamOf(Contents(deliveries[base..]) + [d.content])
      requires GoodDelivery(d, transport.latest.start, transport.latest.run)
      requires deliveries != [] ==> deliveries[|deliveries| - 1].ordinal < d.ordinal
      requires no == U32(d.ordinal) && frameCount == U32(|deliveries| - base)
      modifies this`errorStreak, this`lastSentSeq, this`frameCount, this`deliveries
      ensures Core() && Connected() && errorStreak == 0
      ensures deliveries == old(deliveries) + [d]
    {
      hide Core, StreamOf, Contents, GoodDelivery, U32;
      ContentsSnoc(deliveries, base, d);
      errorStreak := 0;
      ModuloSuccessor(|deliveries| - base);
      frameCount := U32(frameCount + 1);
      RecordSent(d, no);
    }

    method RecordSent(ghost d: Delivery, no: nat)
      requires Core() && no == U32(d.ordinal) && GoodDelivery(d, transport.latest.start, transport.latest.run)
      requires deliveries != [] ==> deliveries[|deliveries| - 1].ordinal < d.ordinal
      modifies this`lastSentSeq, this`deliveries
      ensures Core() && deliveries == old(deliveries) + [d]
    {
      hide DB.Inv, LatestFrame.View, LatestFrame.Valid, Chain, GoodDeliveries, GoodCuts, GoodDelivery, U32;
      GoodDeliveryIsAdded(deliveries, d, transport.latest.start, transport.latest.run);
      GoodCutsKept(closed, deliveries, d, transport.latest.start, transport.latest.run);
      ChainGrows(closed, deliveries, [d], base);
      lastSentSeq := no;
      deliveries := deliveries + [d];
    }

    /** The three chunks of one part. `content` is what the part carries, or was going to carry. */
    method SendPart(c: HttpClient, idx: nat, len: nat, ghost o: nat, ghost named: nat, ghost sent: seq<string>)
      returns (ok: bool, ghost d: Delivery)
      requires Core() && c.wire == StreamOf(sent) && !c.broken
      requires Names(transport.latest.start, transport.latest.run, named, idx, len, o)
      modifies transport`calls, c, transport.latest, transport.latest.buf0, transport.latest.buf1
      ensures Core() && old(transport.latest.run) <= transport.latest.run
      ensures old(transport.latest.published) <= transport.latest.published
      ensures d.ordinal == o && d.named == named
      ensures GoodDelivery(d, transport.latest.start, transport.latest.run)
      ensures ok ==> c.wire == StreamOf(sent + [d.content])
      ensures IsCut(c.wire, sent, d.content) && c.broken == !ok && c.contentType == old(c.contentType)
      ensures ok ==> AllWent(transport.answers, old(transport.calls), transport.calls)
      ensures !ok ==> LastFailed(transport.answers, old(transport.calls), transport.calls)
    {
      hide DB.Inv, LatestFrame.View, LatestFrame.Valid, Chunk, Chain, StreamOf, PartHeader;
      hide GoodDeliveries, GoodCuts, GoodDelivery, Names, Carries, IsCut;
      ghost var latest, before := transport.latest, transport.latest.run;
      NamesFrame(latest.start, latest.run, named, idx, len, o);
      PartHeaderFits(len);
      var header := PartHeader(len);
      var r;
      ghost var text, content, at, moments;
      r, text, moments := transport.HttpWriteChunk(c, Text(header), |header|, |latest.run|);
      TextIsCarried(latest.start, latest.run, header, |before|, text, moments);
      RunGoesOn(closed, deliveries, latest.start, before, latest.run);
      NamesKept(latest.start, before, latest.run, named, idx, len, o);
      if r < 0 {
        d := UnreadDelivery(latest.start, latest.run, idx, len, o, named);
        PartPrefixes(sent, d.content, c.wire);
        return false, d;
      }
      before := latest.run;
      r, content, at := transport.HttpWriteChunk(c, Frame(idx, len), len, named);
      RunGoesOn(closed, deliveries, latest.start, before, latest.run);
      NamesKept(latest.start, before, latest.run, named, idx, len, o);
      ReadDelivery(latest.start, latest.run, idx, len, o, named, content, at);
      d := Delivery(o, content, named, at);
      PartPrefixes(sent, content, c.wire);
      if r < 0 {
        return false, d;
      }
      before := latest.run;
      r, text, moments := transport.HttpWriteChunk(c, Text(PART_TAIL), |PART_TAIL|, |latest.run|);
      TextIsCarried(latest.start, latest.run, PART_TAIL, |before|, text, moments);
      RunGoesOn(closed, deliveries, latest.start, before, latest.run);
      GoodDeliveryKept(d, latest.start, before, latest.run);
      PartPrefixes(sent, content, c.wire);
      ok := r >= 0;
    }

    /** A write failed in the upload `d`. */
    method AbortUpload(ghost d: Delivery)
      requires Core() && client != null && client.broken && client.contentType == CONTENT_TYPE
      requires GoodDelivery(d, transport.latest.start, transport.latest.run)
      requires Framed(client.wire, Contents(deliveries[base..]), Some(d))
      requires deliveries != [] ==> deliveries[|deliveries| - 1].ordinal < d.ordinal
      modifies `client, `frameCount, `errorStreak, `streamOpen, `base, `closed
      ensures Core() && Connected() && client == null && !streamOpen
      ensures errorStreak == AtMost255(old(errorStreak) + 1)
      ensures old(closed) <= closed && JustClosed(|old(closed)|, true) && closed[|closed| - 1].cut == Some(d)
    {
      hide Core, Contents, Framed, GoodDelivery;
      HandleErrorStreak();
      CloseAndReset(Some(d));
      streamOpen := false;
    }

    /** Sending one frame on an open stream. */
    method Transmit(idx: nat, len: nat, no: nat, ghost o: nat, ghost named: nat) returns (sent: bool)
      requires Core() && Connected() && streamOpen
      requires Names(transport.latest.start, transport.latest.run, named, idx, len, o)
      requires no == U32(o)
      requires deliveries != [] ==> deliveries[|deliveries| - 1].ordinal < o
      modifies `client, `frameCount, `errorStreak, `lastSentSeq, `streamOpen, `deliveries, `base, `closed
      modifies transport`calls, client, transport.latest, transport.latest.buf0, transport.latest.buf1
      ensures Core() && Connected()
      ensures client == old(client) || client == null
      ensures sent ==> errorStreak == 0 && AllWent(transport.answers, old(transport.calls), transport.calls)
      ensures !sent ==> errorStreak == AtMost255(old(errorStreak) + 1)
      ensures !sent ==> LastFailed(transport.answers, old(transport.calls), transport.calls)
      ensures !sent ==> JustClosed(|old(closed)|, true)
                        && var cut := closed[|closed| - 1].cut; cut.Some? && cut.value.ordinal == o
      ensures old(closed) <= closed && old(transport.latest.run) <= transport.latest.run
      ensures old(transport.latest.published) <= transport.latest.published
      ensures !sent ==> deliveries == old(deliveries) && !streamOpen
      ensures sent ==> |deliveries| == |old(deliveries)| + 1 && old(deliveries) <= deliveries
                       && deliveries[|deliveries| - 1].ordinal == o
    {
      hide DB.Inv, LatestFrame.View, LatestFrame.Valid, StreamOf, Core, Contents, GoodDelivery, IsCut;
      hide AllWent, LastFailed;
      ghost var d;
      sent, d := SendPart(client, idx, len, o, named, Contents(deliveries[base..]));
      if !sent {
        AbortUpload(d);
        return;
      }
      Commit(d, no);
    }

    /** The loop body from the moment there is a new frame. */
    method Upload(initOk: bool, open: OpenResult, idx: nat, len: nat, no: nat, ghost o: nat, ghost named: nat)
      returns (sent: bool)
      requires Core() && Connected()
      requires Names(transport.latest.start, transport.latest.run, named, idx, len, o)
      requires no == U32(o)
      requires deliveries != [] ==> deliveries[|deliveries| - 1].ordinal < o
      modifies `client, `frameCount, `errorStreak, `lastSentSeq, `streamOpen, `deliveries, `base, `closed
      modifies transport`calls, client, transport.latest, transport.latest.buf0, transport.latest.buf1
      ensures Core() && Connected()
      ensures client == old(client) || client == null || fresh(client)
      ensures sent ==> errorStreak == 0 && (old(streamOpen) || (initOk && open == Opened))
      ensures sent ==> AllWent(transport.answers, old(transport.calls), transport.calls)
      ensures !sent ==> errorStreak == AtMost255(old(errorStreak)
                                                 + if !old(streamOpen) && initOk && open == ConnectError then 2 else 1)
      ensures !sent && (old(streamOpen) || (initOk && open == Opened)) ==>
                LastFailed(transport.answers, old(transport.calls), transport.calls) && JustClosed(|old(closed)|, true)
      ensures old(closed) <= closed && old(transport.latest.run) <= transport.latest.run
      ensures old(transport.latest.published) <= transport.latest.published
      ensures !sent ==> deliveries == old(deliveries) && !streamOpen
      ensures sent ==> |deliveries| == |old(deliveries)| + 1 && old(deliveries) <= deliveries
                       && deliveries[|deliveries| - 1].ordinal == o
    {
      hide Core, Connected, Names;
      ghost var before := transport.latest.run;
      sent := OpenStream(initOk, open);
      NamesKept(transport.latest.start, before, transport.latest.run, named, idx, len, o);
      if !sent {
        return;
      }
      sent := Transmit(idx, len, no, o, named);
    }

    /** The backoff that the loop sleeps for, in milliseconds. */
    method Backoff() returns (ms: nat)
      ensures ms == if errorStreak < 5 then 0 else if errorStreak == 5 then 500 else if errorStreak == 6 then 1000
                    else if errorStreak == 7 then 2000 else 4000
    {
      ms := 0;
      if errorStreak >= THRESHOLD {
        var step := errorStreak - THRESHOLD;
        if step > 3 {
          step := 3;
        }
        ms := BASE_MS;
        for i := 0 to step
          invariant ms == if i == 0 then 500 else if i == 1 then 1000 else if i == 2 then 2000 else 4000
        {
          ms := 2 * ms;
        }
        if ms > MAX_MS {
          ms := MAX_MS;
        }
      }
    }

    /** One iteration of camera_upload_task. The parameters are what the environment answers:
        s_cam_suspended, and the results of initialising and opening the client if it comes to that. */
    method UploadIteration(suspended: bool, initOk: bool, open: OpenResult) returns (ghost outcome: Outcome)
      requires Valid()
      modifies this, transport`calls, client, transport.latest, transport.latest.buf0, transport.latest.buf1
      ensures Valid()
      ensures client == old(client) || client == null || fresh(client)
      ensures outcomes == old(outcomes) + [outcome]
      ensures outcome.Suspended? <==> suspended
      ensures outcome.Suspended? || outcome.Failed? ==> !streamOpen
      ensures outcome.Idle? ==> NothingNew(transport.latest.published, old(lastSentSeq))
      ensures outcome.Sent? ==> old(streamOpen) || (initOk && open == Opened)
      ensures outcome.Sent? ==> AllWent(transport.answers, old(transport.calls), transport.calls)
      ensures outcome.Failed? && (old(streamOpen) || (initOk && open == Opened)) ==>
                LastFailed(transport.answers, old(transport.calls), transport.calls) && JustClosed(|old(closed)|, true)
      ensures errorStreak == if outcome.Sent? then 0 else if !outcome.Failed? then old(errorStreak)
                             else AtMost255(old(errorStreak)
                                            + if !old(streamOpen) && initOk && open == ConnectError then 2 else 1)
      ensures sleptMs - old(sleptMs) == if suspended || old(errorStreak) < 5 then 0
                                        else if old(errorStreak) == 5 then 500
                                        else if old(errorStreak) == 6 then 1000
                                        else if old(errorStreak) == 7 then 2000 else 4000
      ensures old(closed) <= closed && old(transport.latest.run) <= transport.latest.run
      ensures old(transport.latest.published) <= transport.latest.published
      ensures !outcome.Sent? ==> deliveries == old(deliveries)
      ensures outcome.Sent? ==> |deliveries| == |old(deliveries)| + 1 && old(deliveries) <= deliveries
                                && |old(transport.latest.published)| <= deliveries[|deliveries| - 1].ordinal
    {
      hide Core, Connected, StreakAfter, SleptOver, DelayMs, NextStreak, AtMost255, AllWent, LastFailed;
      NextStreakIs(errorStreak, !streamOpen && initOk && open == ConnectError);
      DelayIs(errorStreak);
      if suspended {
        Suspend();
        outcome := Suspended;
        Note(outcome, 0);
        return;
      }
      var delay := Backoff();
      outcome := SendNew(initOk, open);
      Note(outcome, delay);
    }

    /** The loop body after the backoff. */
    method SendNew(initOk: bool, open: OpenResult) returns (ghost outcome: Outcome)
      requires Core() && Connected()
      modifies `client, `frameCount, `errorStreak, `lastSentSeq, `streamOpen, `deliveries, `base, `closed
      modifies transport`calls, client, transport.latest, transport.latest.buf0, transport.latest.buf1
      ensures Core() && Connected()
      ensures client == old(client) || client == null || fresh(client)
      ensures !outcome.Suspended? && (outcome.Failed? ==> !streamOpen)
      ensures outcome.Failed? ==> (outcome.twice <==> !old(streamOpen) && initOk && open == ConnectError)
      ensures outcome.Idle? ==> NothingNew(transport.latest.published, old(lastSentSeq))
      ensures outcome.Sent? ==> old(streamOpen) || (initOk && open == Opened)
      ensures outcome.Sent? ==> AllWent(transport.answers, old(transport.calls), transport.calls)
      ensures outcome.Failed? && (old(streamOpen) || (initOk && open == Opened)) ==>
                LastFailed(transport.answers, old(transport.calls), transport.calls) && JustClosed(|old(closed)|, true)
      ensures errorStreak == if outcome.Sent? then 0 else if !outcome.Failed? then old(errorStreak)
                             else AtMost255(old(errorStreak)
                                            + if !old(streamOpen) && initOk && open == ConnectError then 2 else 1)
      ensures old(closed) <= closed && old(transport.latest.run) <= transport.latest.run
      ensures old(transport.latest.published) <= transport.latest.published
      ensures !outcome.Sent? ==> deliveries == old(deliveries)
      ensures outcome.Sent? ==> |deliveries| == |old(deliveries)| + 1 && old(deliveries) <= deliveries
                                && |old(transport.latest.published)| <= deliveries[|deliveries| - 1].ordinal
    {
      hide Core, Connected, NothingNew, AtMost255, AllWent, LastFailed, Names;
      var isNew, idx, len, no;
      ghost var o, named;
      isNew, idx, len, no, o, named := NextFrame();
      if !isNew {
        return Idle;
      }
      ghost var twice := !streamOpen && initOk && open == ConnectError;
      var sent := Upload(initOk, open, idx, len, no, o, named);
      outcome := if sent then Sent else Failed(twice);
    }
  }

  /** The captures that camera_task stores: those that were made and fit the buffer. */
  function Stored(captures: seq<Option<string>>): seq<string> {
    if captures == [] then []
    else
      var last := captures[|captures| - 1];
      Stored(captures[..|captures| - 1]) + if last.Some? && |last.value| <= DB.SIZE then [last.value] else []
  }

  /** The captures that were made and have at most 32768 bytes, by their numbers. */
  function Fits(captures: seq<Option<string>>): set<nat> {
    set k: nat | k < |captures| && captures[k].Some? && |captures[k].value| <= 32768
  }

  lemma FitsGrows(captures: seq<Option<string>>)
    requires captures != []
    ensures var n, last := |captures| - 1, captures[|captures| - 1];
            Fits(captures) == Fits(captures[..n]) + (if last.Some? && |last.value| <= 32768 then {n} else {})
            && n !in Fits(captures[..n])
  {
  }

  lemma {:induction false} StoredCount(captures: seq<Option<string>>)
    ensures |Stored(captures)| == |Fits(captures)|
  {
    hide Fits;
    if captures == [] {
      NoneFits();
    } else {
      StoredCount(captures[..|captures| - 1]);
      FitsGrows(captures);
    }
  }

  lemma {:induction false} StoredAt(captures: seq<Option<string>>, k: nat)
    requires k < |captures| && k in Fits(captures)
    ensures captures[k].Some? && |Fits(captures[..k])| < |Stored(captures)|
    ensures Stored(captures)[|Fits(captures[..k])|] == captures[k].value
  {
    hide Fits;
    var n := |captures| - 1;
    FitsIndex(captures, k);
    StoredCount(captures[..k]);
    if k < n {
      StoredAt(captures[..n], k);
      assert captures[..n][..k] == captures[..k];
    } else {
      FitsGrows(captures);
    }
  }

  /** As many are stored as fit, each at the place given by how many of those before it fit. */
  lemma StoredFits(captures: seq<Option<string>>)
    ensures |Stored(captures)| == |Fits(captures)|
    ensures forall k :: k in Fits(captures) ==>
              |Fits(captures[..k])| < |Stored(captures)| && Stored(captures)[|Fits(captures[..k])|] == captures[k].value
  {
    StoredCount(captures);
    forall k | k in Fits(captures)
      ensures |Fits(captures[..k])| < |Stored(captures)|
              && Stored(captures)[|Fits(captures[..k])|] == captures[k].value
    {
      StoredAt(captures, k);
    }
  }

  lemma NoneFits()
    ensures Fits([]) == {}
  {
  }

  lemma FitsIndex(captures: seq<Option<string>>, k: nat)
    requires k < |captures| && k in Fits(captures)
    ensures captures[k].Some? && |captures[k].value| <= 32768
    ensures k < |captures| - 1 ==> k in Fits(captures[..|captures| - 1])
  {
  }

  /** When all fit, they are stored one after the other. */
  lemma {:induction false} AllFit(captures: seq<Option<string>>)
    requires forall k :: 0 <= k < |captures| ==> captures[k].Some? && |captures[k].value| <= 32768
    ensures |Stored(captures)| == |captures|
    ensures forall k :: 0 <= k < |captures| ==> Stored(captures)[k] == captures[k].value
  {
    if captures != [] { AllFit(captures[..|captures| - 1]); }
  }

  /** The capture loop of camera_task on what esp_camera_fb_get returns, one entry a turn. */
  method CameraTask(latest: LatestFrame, captures: seq<Option<string>>)
    requires latest.Valid() && latest.store.None?
    modifies latest, latest.buf0, latest.buf1
    ensures latest.Valid() && latest.store.None?
    ensures old(latest.published) <= latest.published
    ensures var added := latest.published[|old(latest.published)|..];
            |added| == |Fits(captures)| && forall k :: k in Fits(captures) ==>
              |Fits(captures[..k])| < |added| && added[|Fits(captures[..k])|] == captures[k].value
    ensures (forall k :: 0 <= k < |captures| ==> captures[k].Some? && |captures[k].value| <= 32768) ==>
              var added := latest.published[|old(latest.published)|..];
              |added| == |captures| && forall k :: 0 <= k < |captures| ==> added[k] == captures[k].value
  {
    hide Fits;
    assert latest.published == old(latest.published) + Stored([]);
    for i := 0 to |captures|
      invariant latest.Valid() && latest.store.None?
      invariant latest.published == old(latest.published) + Stored(captures[..i])
    {
      hide DB.Inv, LatestFrame.View, LatestFrame.Valid;
      var fb := captures[i];
      assert captures[..i + 1][..i] == captures[..i];
      if fb.Some? && |fb.value| <= DB.SIZE {
        latest.StoreFrame(fb.value);
      }
    }
    assert captures[..|captures|] == captures;
    assert latest.published[|old(latest.published)|..] == Stored(captures);
    StoredFits(captures);
    if forall k :: 0 <= k < |captures| ==> captures[k].Some? && |captures[k].value| <= 32768 { AllFit(captures); }
  }

  /** What the environment answers in one iteration of the upload loop. */
  datatype Turn = Turn(suspended: bool, initOk: bool, open: OpenResult)

  /** camera_upload_task, one iteration for each turn, whatever the network answers. */
  method CameraUploadTask(latest: LatestFrame, turns: seq<Turn>, answers: nat -> int) returns (u: Uploader)
    requires latest.Valid()
    modifies latest, latest.buf0, latest.buf1
    ensures u.Valid() && u.transport.latest == latest && u.transport.answers == answers
    ensures |u.outcomes| == |turns|
    ensures forall i :: 0 <= i < |turns| ==> (u.outcomes[i].Suspended? <==> turns[i].suspended)
    ensures u.streamOpen <==> u.client != null
    ensures u.frameCount == U32(|u.deliveries| - u.base)
    ensures forall i, j :: 0 <= i < j < |u.deliveries| ==> u.deliveries[i].ordinal < u.deliveries[j].ordinal
  {
    hide Uploader.Valid, Uploader.Core, Uploader.Connected, AllWent, LastFailed, U32;
    u := new Uploader(latest, answers);
    for n := 0 to |turns|
      invariant u.Valid() && u.transport.latest == latest && u.transport.answers == answers
      invariant |u.outcomes| == n && forall i :: 0 <= i < n ==> (u.outcomes[i].Suspended? <==> turns[i].suspended)
      invariant fresh(u) && fresh(u.transport) && (u.client != null ==> fresh(u.client))
    {
      ghost var _ := u.UploadIteration(turns[n].suspended, turns[n].initOk, turns[n].open);
    }
    LoopHead(u);
  }

  lemma LoopHead(u: Uploader)
    requires u.Valid()
    ensures (u.streamOpen <==> u.client != null) && u.frameCount == U32(|u.deliveries| - u.base)
    ensures forall i, j :: 0 <= i < j < |u.deliveries| ==> u.deliveries[i].ordinal < u.deliveries[j].ordinal
  {
    hide GoodDelivery, GoodCuts, Chain, LatestFrame.Valid, StreamOf;
  }

  lemma {:induction false} ChainAt(cs: seq<Connection>, ds: seq<Delivery>, base: nat, i: nat)
    requires Chain(cs, ds, base) && base <= |ds| && i < |cs|
    ensures cs[i].first == (if i == 0 then 0 else cs[i - 1].next) <= cs[i].next <= |ds|
    ensures cs[i].contentType == CONTENT_TYPE && Framed(cs[i].wire, Contents(ds[cs[i].first..cs[i].next]), cs[i].cut)
  {
    hide Framed;
    if i < |cs| - 1 {
      ChainAt(cs[..|cs| - 1], ds, cs[|cs| - 1].first, i);
    } else {
      assert Chain(cs[..i], ds, cs[i].first);
    }
  }

  /** What went out in an upload. Its snapshot was taken in a state `s` of the run, of the newest frame there;
      its bytes are what the run's own schedule from then on lets a reader of that frame's buffer get. So they
      are bytes of stores into that buffer, each in its place, and all of them are the frame's when each was
      read in time, in particular when no second later store had begun by the last read. */
  ghost predicate WasRead(d: Delivery, start: DB.State, run: seq<DB.Action>)
    requires d.named <= |run|
  {
    var s, schedule, now := DB.StateAt(start, run, d.named), DB.Schedule(run, d.named, d.at), DB.Run(start, run);
    && DB.Inv(s) && |schedule| == |d.content| == s.len <= DB.SIZE
    && 1 <= d.ordinal == |s.published| && s.published <= now.published
    && d.content == DB.ReadBytes(s, d.ordinal, schedule)
    && DB.FromStores(now, d.ordinal, d.content)
    && (DB.ReadInTime(s, d.ordinal, schedule) ==> d.content == now.published[d.ordinal - 1])
    && (DB.Begun(DB.After(s, schedule)) <= d.ordinal + 1 ==> d.content == now.published[d.ordinal - 1])
  }

  lemma DeliveryWasRead(d: Delivery, start: DB.State, run: seq<DB.Action>)
    requires DB.Inv(start) && GoodDelivery(d, start, run)
    ensures d.named <= |run| && WasRead(d, start, run)
  {
    hide DB.Run, DB.After, DB.ReadBytes, DB.ReadInTime, DB.FromStores, DB.ReadAt, DB.Begun;
    var s, schedule := DB.StateAt(start, run, d.named), DB.Schedule(run, d.named, d.at);
    NamedFrame(start, run, d.named, d.ordinal % 2, |d.content|, d.ordinal);
    DB.ReadAtIsReadBytes(start, run, d.ordinal, d.named, d.content, d.at);
    DB.ReadAtIsFromStores(start, run, d.ordinal, d.named, d.content, d.at);
    DB.LenIsLast(s);
    if DB.ReadInTime(s, d.ordinal, schedule) { DB.InterleavedRead(s, schedule); }
    if DB.Begun(DB.After(s, schedule)) <= d.ordinal + 1 { DB.ReadIsFrame(s, schedule); }
  }

  lemma CutIsNewest(cs: seq<Connection>, ds: seq<Delivery>, start: DB.State, run: seq<DB.Action>, i: nat)
    requires GoodDeliveries(ds, start, run) && GoodCuts(cs, ds, start, run)
    requires i < |cs| && cs[i].cut.Some?
    ensures cs[i].broken && GoodDelivery(cs[i].cut.value, start, run) && cs[i].next <= |ds|
    ensures forall j :: 0 <= j < cs[i].next ==> ds[j].ordinal < cs[i].cut.value.ordinal
  {
    hide GoodDelivery;
  }

  lemma NoneIsEmpty(ds: seq<Delivery>, start: DB.State, run: seq<DB.Action>, i: nat, j: nat)
    requires GoodDeliveries(ds, start, run) && i <= j <= |ds|
    ensures NoneEmpty(Contents(ds[i..j]))
  {
    hide DB.ReadAt, DB.StateAt;
  }

  /** Every committed upload of any run was read of the frame it names. */
  lemma CommittedWasRead(u: Uploader, i: nat)
    requires u.Valid() && i < |u.deliveries|
    ensures u.deliveries[i].named <= |u.transport.latest.run|
    ensures WasRead(u.deliveries[i], u.transport.latest.start, u.transport.latest.run)
  {
    hide WasRead, GoodDelivery, DB.Inv, DB.Run;
    DeliveryWasRead(u.deliveries[i], u.transport.latest.start, u.transport.latest.run);
  }

  /** What the log of any run says about the servers' side: on every closed connection the stream is well
      framed and the server has the frames committed on it, in order. If a write failed in an upload, it has
      the bytes of that one too exactly when the last of them got out; they were read of a frame newer than
      all committed before. */
  lemma ServerOfClosedConnection(u: Uploader, i: nat)
    requires u.Valid() && i < |u.closed|
    ensures var c, start, run := u.closed[i], u.transport.latest.start, u.transport.latest.run;
            && c.first == (if i == 0 then 0 else u.closed[i - 1].next) <= c.next <= |u.deliveries|
            && Live(c.contentType, c.wire)
            && (var frames := Contents(u.deliveries[c.first..c.next]);
                Received(c.contentType, c.wire)
                == frames + if GotOut(c.wire, frames, c.cut) then [c.cut.value.content] else [])
            && (forall j :: c.first <= j < c.next ==>
                  u.deliveries[j].named <= |run| && WasRead(u.deliveries[j], start, run))
            && (c.cut.Some? ==>
                  && c.broken && c.cut.value.named <= |run| && WasRead(c.cut.value, start, run)
                  && forall j :: 0 <= j < c.next ==> u.deliveries[j].ordinal < c.cut.value.ordinal)
  {
    hide Live, Received, Framed, StreamOf, DB.Inv, DB.Run, LatestFrame.View, GotOut, Chain, GoodDelivery, WasRead;
    hide GoodDeliveries, GoodCuts, NoneEmpty, Uploader.Connected;
    var c, start, run := u.closed[i], u.transport.latest.start, u.transport.latest.run;
    ChainAt(u.closed, u.deliveries, u.base, i);
    if c.cut.Some? {
      CutIsNewest(u.closed, u.deliveries, start, run, i);
      DeliveryWasRead(c.cut.value, start, run);
    }
    forall j | c.first <= j < c.next ensures u.deliveries[j].named <= |run| && WasRead(u.deliveries[j], start, run) {
      CommittedWasRead(u, j);
    }
    NoneIsEmpty(u.deliveries, start, run, c.first, c.next);
    FramedIsReceived(c.wire, Contents(u.deliveries[c.first..c.next]), c.cut);
  }

  /** On the open connection the server has exactly the frames committed on it, and nothing was cut short:
      part after part is what was read of the frame it names. */
  lemma ServerOfOpenConnection(u: Uploader)
    requires u.Valid() && u.client != null
    ensures Live(u.client.contentType, u.client.wire)
    ensures |Received(u.client.contentType, u.client.wire)| == |u.deliveries| - u.base
    ensures u.frameCount == U32(|Received(u.client.contentType, u.client.wire)|)
    ensures forall i :: u.base <= i < |u.deliveries| ==>
              && Received(u.client.contentType, u.client.wire)[i - u.base] == u.deliveries[i].content
              && u.deliveries[i].named <= |u.transport.latest.run|
              && WasRead(u.deliveries[i], u.transport.latest.start, u.transport.latest.run)
  {
    hide Live, Received, StreamOf, DB.Inv, DB.Run, LatestFrame.View, Chain, WasRead, GoodDelivery, GoodCuts;
    hide GoodDeliveries, NoneEmpty;
    var latest := u.transport.latest;
    NoneIsEmpty(u.deliveries, latest.start, latest.run, u.base, |u.deliveries|);
    assert u.deliveries[u.base..|u.deliveries|] == u.deliveries[u.base..];
    StreamRoundTrip(Contents(u.deliveries[u.base..]));
    forall i | u.base <= i < |u.deliveries|
      ensures u.deliveries[i].named <= |latest.run| && WasRead(u.deliveries[i], latest.start, latest.run)
    {
      CommittedWasRead(u, i);
    }
  }
}
