/**
 The disk driver (drivers/hd_device.c:29-152 and 193-213, drivers/hd_request_queue.c): mutual
 recursion over a queue of requests under an arbitrary stream of controller results.
 */
module HdDriver {

  const MAX_ERRORS: nat := 7
  const NR_REQUEST: nat := 32

  type Sector = seq<nat>

  datatype Cmd = Read | Write

  /** struct hd_request.  offset counts the sectors of the block already moved. */
  datatype Request = Request(cmd: Cmd, block: nat, buf: nat, slot: nat,
                             sector: nat, offset: nat, nrSectors: nat, errors: nat)

  /** What a request works on: the disk, the buffers (two sectors each) and the two locks. */
  datatype Hardware = Hardware(disk: seq<Sector>, bufs: seq<seq<Sector>>, reqLock: seq<int>, bhLock: seq<int>)

  /** How a request ended: sectors moved in all, and how many results had been read by then. */
  datatype Ended = Ended(block: nat, buf: nat, slot: nat, moved: nat, at: nat)

  predicate Fits(r: Request, h: Hardware) {
    && r.buf < |h.bufs| && |h.bufs[r.buf]| == 2 && r.buf < |h.bhLock| && r.slot < |h.reqLock|
    && 2 * r.block + 1 < |h.disk|
    && r.sector == 2 * r.block + r.offset && r.offset + r.nrSectors == 2
  }

  ghost predicate AllFit(q: seq<Request>, h: Hardware) {
    forall i :: 0 <= i < |q| ==> Fits(q[i], h)
  }

  lemma RestFits(q: seq<Request>, h: Hardware, h': Hardware)
    requires q != [] && AllFit(q, h) && SameShape(h, h')
    ensures AllFit(q[1..], h')
  {
  }

  predicate SameShape(h: Hardware, h': Hardware) {
    && |h.disk| == |h'.disk| && |h.bufs| == |h'.bufs| && |h.reqLock| == |h'.reqLock| && |h.bhLock| == |h'.bhLock|
    && forall i :: 0 <= i < |h.bufs| ==> |h.bufs[i]| == |h'.bufs[i]|
  }

  /** One sector moves between disk and buffer. */
  function MoveSector(h: Hardware, r: Request): (h': Hardware)
    requires Fits(r, h) && r.nrSectors > 0
    ensures SameShape(h, h')
  {
    match r.cmd
    case Read => h.(bufs := h.bufs[r.buf := h.bufs[r.buf][r.offset := h.disk[r.sector]]])
    case Write => h.(disk := h.disk[r.sector := h.bufs[r.buf][r.offset]])
  }

  function Advance(r: Request): Request
    requires r.nrSectors > 0
  {
    r.(sector := r.sector + 1, offset := r.offset + 1, nrSectors := r.nrSectors - 1, errors := 0)
  }

  /** All sectors up to moved. */
  function Move(h: Hardware, r: Request, moved: nat): (h': Hardware)
    requires Fits(r, h) && moved <= 2
    ensures SameShape(h, h')
    decreases r.nrSectors
  {
    if r.offset >= moved then h else Move(MoveSector(h, r), Advance(r), moved)
  }

  /** end_request releases both locks. */
  function Unlock(h: Hardware, r: Request): (h': Hardware)
    requires r.buf < |h.bhLock| && r.slot < |h.reqLock|
    ensures SameShape(h, h')
  {
    h.(reqLock := h.reqLock[r.slot := h.reqLock[r.slot] - 1],
       bhLock := h.bhLock[r.buf := h.bhLock[r.buf] - 1])
  }

  /** The last n results before position t were errors. */
  ghost predicate Streak(bad: nat -> bool, t: nat, n: nat) {
    n <= t && forall i :: t - n <= i < t ==> bad(i)
  }

  /**
   A request ends fully transferred, or after eight errors in a row, of which all but those it
   starts with (r.errors) were read since position from.
   */
  ghost predicate EndOk(bad: nat -> bool, from: nat, r: Request, e: Ended) {
    && e.block == r.block && e.buf == r.buf && e.slot == r.slot
    && r.offset <= e.moved <= 2 && from <= e.at
    && (e.moved == 2 || (Streak(bad, e.at, MAX_ERRORS + 1) && from + MAX_ERRORS + 1 <= e.at + r.errors))
  }

  /**
   Every request of q ended exactly once, in order, and h1 is what that makes of h0.  The
   results read between positions from and to are shared out between the requests in order.
   */
  ghost predicate Served(bad: nat -> bool, from: nat, q: seq<Request>, h0: Hardware, log: seq<Ended>, h1: Hardware, to: nat)
    requires AllFit(q, h0)
    decreases |q|
  {
    if q == [] then log == [] && h1 == h0 && to == from
    else
      && |log| == |q| && EndOk(bad, from, q[0], log[0])
      && var h := Unlock(Move(h0, q[0], log[0].moved), q[0]);
         RestFits(q, h0, h);
         Served(bad, log[0].at, q[1..], h, log[1..], h1, to)
  }

  /** A round that moved a sector of the head only brings its end closer. */
  lemma ServedAfterMove(bad: nat -> bool, from: nat, q: seq<Request>, h: Hardware, log: seq<Ended>, h1: Hardware, to: nat)
    requires q != [] && q[0].nrSectors > 0 && AllFit(q, h)
    requires AllFit(q[0 := Advance(q[0])], MoveSector(h, q[0]))
    requires Served(bad, from + 1, q[0 := Advance(q[0])], MoveSector(h, q[0]), log, h1, to)
    ensures Served(bad, from, q, h, log, h1, to)
  {
    assert q[0 := Advance(q[0])][1..] == q[1..];
  }

  class Driver {
    var queue: seq<Request>
    var hw: Hardware
    var t: nat
    var reset: bool

    ghost predicate Valid(bad: nat -> bool)
      reads this
    {
      && AllFit(queue, hw) && (forall i :: 0 <= i < |queue| ==> queue[i].nrSectors > 0)
      && (forall i :: 1 <= i < |queue| ==> queue[i].errors == 0)
      && (queue != [] ==> queue[0].errors <= MAX_ERRORS && Streak(bad, t, queue[0].errors))
    }

    ghost function SectorsLeft(): nat
      reads this
    {
      if queue == [] then 0 else queue[0].nrSectors
    }

    ghost function ErrorsLeft(): nat
      reads this
    {
      if queue == [] || queue[0].errors > MAX_ERRORS then 0 else MAX_ERRORS + 1 - queue[0].errors
    }

    /** No request pending (hd_init, drivers/hd_device.c:223-236). */
    constructor (hw: Hardware)
      ensures this.hw == hw && queue == [] && t == 0 && forall bad: nat -> bool :: Valid(bad)
    {
      this.hw, queue, t, reset := hw, [], 0, false;
    }

    /** The next controller result (win_result, drivers/hd_device.c:42-56). */
    method WinResult(bad: nat -> bool) returns (error: bool)
      modifies `t
      ensures t == old(t) + 1 && error == bad(old(t))
    {
      error := bad(t);
      t := t + 1;
    }

    /** end_request (drivers/hd_request_queue.c:39-52) on the head of the queue. */
    method EndRequest()
      requires queue != [] && Fits(queue[0], hw)
      modifies `queue, `hw
      ensures queue == old(queue)[1..] && hw == Unlock(old(hw), old(queue[0]))
    {
      var req := queue[0];
      hw := hw.(reqLock := hw.reqLock[req.slot := hw.reqLock[req.slot] - 1],
                bhLock := hw.bhLock[req.buf := hw.bhLock[req.buf] - 1]);
      queue := queue[1..];
    }

    /** bad_rw_intr (drivers/hd_device.c:29-35), deciding on a reset before the head is gone. */
    method BadRwIntr() returns (ended: bool)
      requires queue != [] && Fits(queue[0], hw) && queue[0].errors <= MAX_ERRORS
      modifies this
      ensures t == old(t) && (ended <==> old(queue[0].errors) == 7)
      ensures reset == (old(reset) || old(queue[0].errors) >= 3)
      ensures ended ==> queue == old(queue)[1..] && hw == Unlock(old(hw), old(queue[0]))
      ensures !ended ==> hw == old(hw) && queue == old(queue)[0 := old(queue[0]).(errors := old(queue[0].errors) + 1)]
    {
      queue := queue[0 := queue[0].(errors := queue[0].errors + 1)];
      var errors := queue[0].errors;
      if errors > MAX_ERRORS / 2 {
        reset := true;
      }
      ended := errors > MAX_ERRORS;
      if ended {
        EndRequest();
      }
    }

    /**
     do_hd_request (drivers/hd_device.c:193-213): whatever the controller answers, the queue is
     worked off, every request ending exactly once.
     */
    method DoHdRequest(bad: nat -> bool) returns (ghost log: seq<Ended>)
      requires Valid(bad)
      modifies this
      ensures queue == [] && Served(bad, old(t), old(queue), old(hw), log, hw, t)
      decreases |queue|, SectorsLeft(), ErrorsLeft(), 3
    {
      if queue == [] {
        return [];
      }
      if queue[0].cmd == Read {
        log := ReadIntr(bad);
      } else {
        log := WriteIntr(bad);
      }
    }

    /** read_intr (drivers/hd_device.c:78-115). */
    method ReadIntr(bad: nat -> bool) returns (ghost log: seq<Ended>)
      requires Valid(bad) && queue != [] && queue[0].cmd == Read
      modifies this
      ensures queue == [] && Served(bad, old(t), old(queue), old(hw), log, hw, t)
      decreases |queue|, SectorsLeft(), ErrorsLeft(), 2
    {
      ghost var q, h := queue, hw;
      var error := WinResult(bad);
      if error {
        log := FailAndContinue(bad);
        return;
      }
      var req := queue[0];
      hw := hw.(bufs := hw.bufs[req.buf := hw.bufs[req.buf][req.offset := hw.disk[req.sector]]]);
      queue := queue[0 := Advance(req)];
      StillFit(q, h);
      if queue[0].nrSectors > 0 {
        log := ReadIntr(bad);
      } else {
        log := EndAndContinue(bad);
      }
      ServedAfterMove(bad, old(t), q, h, log, hw, t);
    }

    /** write_intr (drivers/hd_device.c:118-152). */
    method WriteIntr(bad: nat -> bool) returns (ghost log: seq<Ended>)
      requires Valid(bad) && queue != [] && queue[0].cmd == Write
      modifies this
      ensures queue == [] && Served(bad, old(t), old(queue), old(hw), log, hw, t)
      decreases |queue|, SectorsLeft(), ErrorsLeft(), 2
    {
      ghost var q, h := queue, hw;
      var error := WinResult(bad);
      if error {
        log := FailAndContinue(bad);
        return;
      }
      var req := queue[0];
      hw := hw.(disk := hw.disk[req.sector := hw.bufs[req.buf][req.offset]]);
      queue := queue[0 := Advance(req)];
      StillFit(q, h);
      if queue[0].nrSectors > 0 {
        log := WriteIntr(bad);
      } else {
        log := EndAndContinue(bad);
      }
      ServedAfterMove(bad, old(t), q, h, log, hw, t);
    }

    /** The error branch shared by the two (lines 80-85 and 120-125). */
    method FailAndContinue(bad: nat -> bool) returns (ghost log: seq<Ended>)
      requires queue != [] && queue[0].errors <= MAX_ERRORS && Streak(bad, t, queue[0].errors + 1) && t > 0
      requires AllFit(queue, hw) && forall i :: 0 <= i < |queue| ==> queue[i].nrSectors > 0
      requires forall i :: 1 <= i < |queue| ==> queue[i].errors == 0
      modifies this
      ensures queue == [] && Served(bad, old(t) - 1, old(queue), old(hw), log, hw, t)
      decreases |queue|, SectorsLeft(), ErrorsLeft(), 1
    {
      ghost var q, h := queue, hw;
      ghost var end := Ended(q[0].block, q[0].buf, q[0].slot, q[0].offset, t);
      var ended := BadRwIntr();
      if ended {
        RestFits(q, h, hw);
        log := DoHdRequest(bad);
        EndedHead(bad, old(t) - 1, q, h, end, log, hw, t);
        log := [end] + log;
      } else {
        log := Retry(bad, q);
      }
    }

    /** The same request again, with one error more than q says. */
    method Retry(bad: nat -> bool, ghost q: seq<Request>) returns (ghost log: seq<Ended>)
      requires q != [] && queue == q[0 := q[0].(errors := q[0].errors + 1)] && AllFit(q, hw) && Valid(bad) && t > 0
      modifies this
      ensures queue == [] && Served(bad, old(t) - 1, q, old(hw), log, hw, t)
      decreases |queue|, SectorsLeft(), ErrorsLeft(), 4
    {
      ghost var h := hw;
      log := DoHdRequest(bad);
      OneErrorMore(bad, old(t), q, h, log, hw, t);
    }

    /** The end of a transfer shared by the two (lines 113-114 and 150-151). */
    method EndAndContinue(bad: nat -> bool) returns (ghost log: seq<Ended>)
      requires queue != [] && queue[0].nrSectors == 0
      requires AllFit(queue, hw)
      requires forall i :: 1 <= i < |queue| ==> queue[i].nrSectors > 0 && queue[i].errors == 0
      modifies this
      ensures queue == [] && Served(bad, old(t), old(queue), old(hw), log, hw, t)
      decreases |queue|, SectorsLeft(), ErrorsLeft(), 1
    {
      ghost var q, h := queue, hw;
      ghost var end := Ended(q[0].block, q[0].buf, q[0].slot, 2, t);
      EndRequest();
      log := DoHdRequest(bad);
      EndedHead(bad, old(t), q, h, end, log, hw, t);
      log := [end] + log;
    }

    /** get_request (drivers/hd_request_queue.c:12-35): the first slot that is not locked. */
    method GetRequest() returns (slot: nat)
      requires exists i :: 0 <= i < |hw.reqLock| && hw.reqLock[i] == 0
      ensures slot < |hw.reqLock| && hw.reqLock[slot] == 0
      ensures forall i :: 0 <= i < slot ==> hw.reqLock[i] != 0
    {
      slot := 0;
      while hw.reqLock[slot] != 0
        invariant slot < |hw.reqLock| && forall i :: 0 <= i < slot ==> hw.reqLock[i] != 0
        decreases |hw.reqLock| - slot
      {
        slot := slot + 1;
      }
    }

    /**
     read_write_block (drivers/hd_request_queue.c:55-102) with no request pending: on return the
     block was moved, or its request failed eight times in a row; both locks are as before.
     */
    method ReadWriteBlock(cmd: Cmd, block: nat, buf: nat, bad: nat -> bool) returns (ghost end: Ended)
      requires queue == [] && (exists i :: 0 <= i < |hw.reqLock| && hw.reqLock[i] == 0)
      requires buf < |hw.bufs| && |hw.bufs[buf]| == 2 && buf < |hw.bhLock| && 2 * block + 1 < |hw.disk|
      modifies this
      ensures queue == [] && hw.reqLock == old(hw.reqLock) && hw.bhLock == old(hw.bhLock)
      ensures end.moved <= 2 && end.at == t
      ensures end.moved < 2 ==> Streak(bad, t, 8) && old(t) + 8 <= t
      ensures cmd == Read ==> hw.disk == old(hw.disk)
      ensures cmd == Read ==>
        hw.bufs == old(hw.bufs)[buf := Mixed(old(hw.bufs[buf]), old(hw.disk), block, end.moved)]
      ensures cmd == Write ==> hw.bufs == old(hw.bufs)
      ensures cmd == Write ==> hw.disk == Written(old(hw.disk), old(hw.bufs[buf]), block, end.moved)
    {
      ghost var h0 := hw;
      var slot := GetRequest();
      hw := hw.(reqLock := hw.reqLock[slot := hw.reqLock[slot] + 1],
                bhLock := hw.bhLock[buf := hw.bhLock[buf] + 1]);
      var req := Request(cmd, block, buf, slot, block * 2, 0, 2, 0);
      queue := [req];
      ghost var h := hw;
      ghost var log := DoHdRequest(bad);
      end := log[0];
      assert [req][1..] == [] && log[1..] == [];
      MoveMeaning(h, req, end.moved);
      assert hw == Unlock(Move(h, req, end.moved), req);
      assert hw.reqLock == h0.reqLock && hw.bhLock == h0.bhLock;
    }
  }

  lemma StillFit(q: seq<Request>, h: Hardware)
    requires q != [] && q[0].nrSectors > 0 && AllFit(q, h)
    ensures AllFit(q[0 := Advance(q[0])], MoveSector(h, q[0]))
  {
  }

  /** The head has ended where it stood, and the rest of the queue was served after it. */
  lemma EndedHead(bad: nat -> bool, from: nat, q: seq<Request>, h: Hardware, end: Ended,
                  log: seq<Ended>, h1: Hardware, to: nat)
    requires q != [] && AllFit(q, h)
    requires Fits(q[0], h) && EndOk(bad, from, q[0], end) && end.moved == q[0].offset
    requires AllFit(q[1..], Unlock(h, q[0]))
    requires Served(bad, end.at, q[1..], Unlock(h, q[0]), log, h1, to)
    ensures Served(bad, from, q, h, [end] + log, h1, to)
  {
    assert ([end] + log)[1..] == log;
  }

  /** Reading one more error and counting it leaves the same requests to be served. */
  lemma OneErrorMore(bad: nat -> bool, from: nat, q: seq<Request>, h: Hardware, log: seq<Ended>, h1: Hardware, to: nat)
    requires q != [] && from > 0 && AllFit(q, h) && AllFit(q[0 := q[0].(errors := q[0].errors + 1)], h)
    requires Served(bad, from, q[0 := q[0].(errors := q[0].errors + 1)], h, log, h1, to)
    ensures Served(bad, from - 1, q, h, log, h1, to)
  {
    var r := q[0].(errors := q[0].errors + 1);
    assert q[0 := r][1..] == q[1..];
    SameMove(h, q[0], r, log[0].moved);
  }

  /** What is moved does not depend on the error count. */
  lemma {:induction false} SameMove(h: Hardware, r: Request, r': Request, moved: nat)
    requires Fits(r, h) && r' == r.(errors := r'.errors) && moved <= 2
    ensures Move(h, r, moved) == Move(h, r', moved)
    decreases r.nrSectors
  {
  }

  // ------------------------------------------------------------ one synchronous request

  /** The buffer and the disk after the first moved sectors of a block request. */
  lemma MoveMeaning(h: Hardware, r: Request, moved: nat)
    requires Fits(r, h) && r.offset == 0 && moved <= 2
    ensures var h' := Move(h, r, moved);
      && h'.reqLock == h.reqLock && h'.bhLock == h.bhLock
      && (r.cmd == Read ==> h'.disk == h.disk)
      && (r.cmd == Read ==> h'.bufs == h.bufs[r.buf := Mixed(h.bufs[r.buf], h.disk, r.block, moved)])
      && (r.cmd == Write ==> h'.bufs == h.bufs)
      && (r.cmd == Write ==> h'.disk == Written(h.disk, h.bufs[r.buf], r.block, moved))
  {
    if moved >= 1 {
      var h1, r1 := MoveSector(h, r), Advance(r);
      var a, b, buf := h.disk[2 * r.block], h.disk[2 * r.block + 1], h.bufs[r.buf];
      assert buf[0 := a] == [a, buf[1]] && [a, buf[1]][1 := b] == [a, b];
      if moved == 2 {
        assert Move(h1, r1, 2) == Move(MoveSector(h1, r1), Advance(r1), 2) == MoveSector(h1, r1);
        assert r.cmd == Read ==> h.bufs[r.buf := [a, buf[1]]][r.buf := [a, b]] == h.bufs[r.buf := [a, b]];
      }
    } else {
      assert h.bufs[r.buf := Mixed(h.bufs[r.buf], h.disk, r.block, 0)] == h.bufs;
    }
  }

  /** A buffer whose first moved sectors come from the disk. */
  function Mixed(buf: seq<Sector>, disk: seq<Sector>, block: nat, moved: nat): seq<Sector>
    requires |buf| == 2 && 2 * block + 1 < |disk| && moved <= 2
  {
    if moved == 0 then buf
    else if moved == 1 then [disk[2 * block], buf[1]]
    else [disk[2 * block], disk[2 * block + 1]]
  }

  /** The disk with the first moved sectors of the block written from the buffer. */
  function Written(disk: seq<Sector>, buf: seq<Sector>, block: nat, moved: nat): seq<Sector>
    requires |buf| == 2 && 2 * block + 1 < |disk| && moved <= 2
  {
    if moved == 0 then disk
    else if moved == 1 then disk[2 * block := buf[0]]
    else disk[2 * block := buf[0]][2 * block + 1 := buf[1]]
  }

  /** A read that stopped short leaves the block in the buffer only where the old bytes were right. */
  lemma ReadComplete(buf: seq<Sector>, disk: seq<Sector>, block: nat, moved: nat)
    requires |buf| == 2 && 2 * block + 1 < |disk| && moved <= 2
    ensures Mixed(buf, disk, block, moved) == [disk[2 * block], disk[2 * block + 1]]
      <==> (moved < 1 ==> buf[0] == disk[2 * block]) && (moved < 2 ==> buf[1] == disk[2 * block + 1])
  {
    assert buf == [buf[0], buf[1]];
  }

  /** And a write has reached the disk only where the old sectors were right. */
  lemma WriteComplete(buf: seq<Sector>, disk: seq<Sector>, block: nat, moved: nat)
    requires |buf| == 2 && 2 * block + 1 < |disk| && moved <= 2
    ensures Written(disk, buf, block, moved) == Written(disk, buf, block, 2)
      <==> (moved < 1 ==> buf[0] == disk[2 * block]) && (moved < 2 ==> buf[1] == disk[2 * block + 1])
  {
    var full, part := Written(disk, buf, block, 2), Written(disk, buf, block, moved);
    assert full[2 * block] == buf[0] && full[2 * block + 1] == buf[1];
    assert part[2 * block] == (if moved < 1 then disk[2 * block] else buf[0]);
    assert part[2 * block + 1] == if moved < 2 then disk[2 * block + 1] else buf[1];
  }

  /** The queue after line 31-32 of drivers/hd_device.c: one error more, and the head gone at the eighth. */
  function AfterError(q: seq<Request>): seq<Request>
    requires q != []
  {
    if q[0].errors + 1 > MAX_ERRORS then q[1..] else q[0 := q[0].(errors := q[0].errors + 1)]
  }

  /**
   Line 33 reads the head after that.  There is none exactly at the eighth error of the last
   request; at the eighth error of an earlier one the errors of the next are read, and a reset
   that was due is not asked for if those are few.
   */
  lemma BadHeadExact(q: seq<Request>)
    requires q != [] && q[0].errors <= MAX_ERRORS
    ensures AfterError(q) == [] <==> |q| == 1 && q[0].errors == MAX_ERRORS
    ensures AfterError(q) != [] ==>
      (AfterError(q)[0].errors > MAX_ERRORS / 2 <==>
         if q[0].errors == MAX_ERRORS then q[1].errors > MAX_ERRORS / 2 else q[0].errors >= MAX_ERRORS / 2)
  {
  }
}
