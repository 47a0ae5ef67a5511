/** The pipe: a ring of 4096 bytes between two ends that sleep and wake each other. */
module Pipes {

  const ERESTARTSYS: int := -512

  /** What another process does to the pipe in one uninterrupted stretch. */
  datatype Chunk = Put(data: seq<nat>) | Take(count: nat)

  /** What happens during one sleep, how many ends are open after it, and whether a signal came. */
  datatype Nap = Nap(chunks: seq<Chunk>, peer: bool, signal: bool)

  function Min(a: int, b: int): int {
    if a < b then a else b
  }

  /** Two positions of the byte stream less than a page apart are different places in the ring. */
  lemma DifferentPlaces(i: nat, j: nat)
    requires i < j < i + 4096
    ensures i % 4096 != j % 4096
  {
  }

  /** PIPE_SIZE is the number of bytes written and not read, as long as that is below 4096. */
  lemma SizeIsDifference(w: nat, r: nat)
    requires r <= w < r + 4096
    ensures (w % 4096 - r % 4096) % 4096 == w - r
  {
  }

  lemma NoWrap(w: nat, t: nat)
    requires w % 4096 + t < 4096
    ensures (w + t) % 4096 == w % 4096 + t
  {
  }

  lemma Wrap(w: nat, t: nat)
    ensures (w % 4096 + t) % 4096 == (w + t) % 4096
  {
  }

  /** The unread part of the stream is in the ring. */
  ghost predicate InRing(ring: seq<nat>, written: seq<nat>, read: seq<nat>) {
    |ring| == 4096 && read <= written && |written| < |read| + 4096 &&
    forall i: nat | |read| <= i < |written| :: ring[i % 4096] == written[i]
  }

  /** Bytes copied in at the head, with no more of them than there is room, come after the
      unread ones and destroy none of them. */
  lemma PutKeeps(ring: seq<nat>, ring': seq<nat>, written: seq<nat>, read: seq<nat>, data: seq<nat>)
    requires InRing(ring, written, read) && |written| + |data| < |read| + 4096 && |written| % 4096 + |data| <= 4096
    requires var at := |written| % 4096; ring' == ring[..at] + data + ring[at + |data|..]
    ensures InRing(ring', written + data, read)
  {
    var w, at := |written|, |written| % 4096;
    forall i: nat | |read| <= i < w + |data| ensures ring'[i % 4096] == (written + data)[i] {
      if i < w {
        if at <= i % 4096 < at + |data| {
          NoWrap(w, i % 4096 - at);
          DifferentPlaces(i, w + (i % 4096 - at));
        }
      } else {
        NoWrap(w, i - w);
      }
    }
  }

  lemma TakeKeeps(ring: seq<nat>, written: seq<nat>, read: seq<nat>, got: seq<nat>)
    requires InRing(ring, written, read) && |read| % 4096 + |got| <= 4096 && |read| + |got| <= |written|
    requires got == ring[|read| % 4096..|read| % 4096 + |got|]
    ensures InRing(ring, written, read + got)
  {
    forall t: nat | t < |got| ensures got[t] == written[|read| + t] { NoWrap(|read|, t); }
  }

  predicate OnlyPuts(naps: seq<Nap>) {
    forall i, j | 0 <= i < |naps| && 0 <= j < |naps[i].chunks| :: naps[i].chunks[j].Put?
  }

  predicate OnlyTakes(naps: seq<Nap>) {
    forall i, j | 0 <= i < |naps| && 0 <= j < |naps[i].chunks| :: naps[i].chunks[j].Take?
  }

  /** A signal is pending after the first n naps. */
  predicate Signalled(pending: bool, naps: seq<Nap>, n: nat)
    requires n <= |naps|
  {
    if n == 0 then pending else naps[n - 1].signal
  }

  class Pipe {
    const page: array<nat>
    var head: nat
    var tail: nat
    var peer: bool              // both ends are open: i_count == 2
    ghost var written: seq<nat> // all bytes ever put in
    ghost var read: seq<nat>    // all bytes ever taken out

    /** What was read is a prefix of what was written, and the ring holds the difference, which
        is never a whole page. */
    ghost predicate Valid()
      reads this, page
    {
      InRing(page[..], written, read) && head == |written| % 4096 && tail == |read| % 4096
    }

    constructor ()
      ensures Valid() && written == [] && read == [] && peer && fresh(page)
    {
      page := new nat[4096];
      head, tail, peer := 0, 0, true;
      written, read := [], [];
    }

    function Size(): nat
      reads this
    {
      (head - tail) % 4096
    }

    /** One turn of write_pipe's loop. */
    method PutChunk(data: seq<nat>) returns (chars: nat)
      requires Valid()
      modifies this`head, this`written, page
      ensures Valid() && chars == Min(Min(4096 - old(head), |data|), 4095 - old(Size()))
      ensures written == old(written) + data[..chars]
    {
      SizeIsDifference(|written|, |read|);
      chars := Min(Min(4096 - head, |data|), 4095 - Size());
      Wrap(|written|, chars);
      PutKeeps(page[..], page[..head] + data[..chars] + page[..][head + chars..], written, read, data[..chars]);
      CopyIn(head, data[..chars]);
      head := (head + chars) % 4096;
      written := written + data[..chars];
    }

    method CopyIn(at: nat, data: seq<nat>)
      requires at + |data| <= page.Length
      modifies page
      ensures page[..] == old(page[..at]) + data + old(page[..])[at + |data|..]
    {
      var t := 0;
      while t < |data|
        invariant 0 <= t <= |data| && page[..] == old(page[..at]) + data[..t] + old(page[..])[at + t..]
      {
        page[at + t] := data[t];
        t := t + 1;
      }
    }

    /** One turn of read_pipe's loop. */
    method TakeChunk(count: nat) returns (got: seq<nat>)
      requires Valid()
      modifies this`tail, this`read
      ensures Valid() && |got| == Min(Min(4096 - old(tail), count), old(Size()))
      ensures read == old(read) + got
    {
      SizeIsDifference(|written|, |read|);
      var chars := Min(Min(4096 - tail, count), Size());
      Wrap(|read|, chars);
      var at := tail;
      tail := (tail + chars) % 4096;
      got := [];
      while |got| < chars
        invariant |got| <= chars && got == page[at..at + |got|]
      {
        got := got + [page[at + |got|]];
      }
      TakeKeeps(page[..], written, read, got);
      read := read + got;
    }

    /** The other processes while this one sleeps. */
    method Sleep(nap: Nap)
      requires Valid()
      modifies this, page
      ensures Valid() && peer == nap.peer && old(written) <= written && old(read) <= read
      ensures OnlyPuts([nap]) ==> read == old(read)
      ensures OnlyTakes([nap]) ==> written == old(written)
    {
      peer := nap.peer;
      var i := 0;
      while i < |nap.chunks|
        invariant 0 <= i <= |nap.chunks| && Valid() && peer == nap.peer && old(written) <= written && old(read) <= read
        invariant OnlyPuts([nap]) ==> read == old(read)
        invariant OnlyTakes([nap]) ==> written == old(written)
      {
        match nap.chunks[i] {
          case Put(data) =>
            assert [nap][0].chunks[i].Put?;
            var n := PutChunk(data);
          case Take(count) =>
            assert [nap][0].chunks[i].Take?;
            var got := TakeChunk(count);
        }
        i := i + 1;
      }
    }

    /** read_pipe, called with or without a signal pending. `done` is false while it sleeps on,
        after all its naps. With one reader, what it gets is the next bytes of the stream. It
        returns early only when all that was written has been read: with what it has if there is
        no writer left, and, while there is one, for a signal that is pending when it last looks,
        with ERESTARTSYS if it has nothing. */
    method ReadPipe(count: nat, pending: bool, naps: seq<Nap>)
      returns (done: bool, ret: int, got: seq<nat>, turn: nat)
      requires Valid()
      modifies this, page
      ensures Valid() && old(written) <= written && |got| <= count && turn <= |naps|
      ensures OnlyPuts(naps) ==> read == old(read) + got && got == written[|old(read)|..|old(read)| + |got|]
      ensures done ==> ret == if got == [] && 0 < count && peer then ERESTARTSYS else |got|
      ensures done && |got| < count ==> read == written && (peer ==> Signalled(pending, naps, turn))
      ensures !done ==> read == written && peer && turn == |naps| && !Signalled(pending, naps, turn)
      ensures old(written) == old(read) && (!old(peer) || pending) ==> done && got == [] && peer == old(peer)
      ensures old(written) != old(read) && 0 < count ==> got != []
    {
      got := [];
      turn := 0;
      var signal := pending;
      while |got| < count
        invariant Valid() && old(written) <= written && |got| <= count && 0 <= turn <= |naps|
        invariant OnlyPuts(naps) ==> read == old(read) + got
        invariant signal == Signalled(pending, naps, turn)
        invariant turn == 0 ==> written == old(written) && read == old(read) + got && peer == old(peer)
        invariant turn > 0 ==> if old(written) == old(read) then old(peer) && !pending else got != []
        decreases |naps| - turn, count - |got|
      {
        SizeIsDifference(|written|, |read|);
        if Size() == 0 {
          if !peer { return true, |got|, got, turn; }
          if signal { return true, if |got| > 0 then |got| else ERESTARTSYS, got, turn; }
          if turn == |naps| { return false, 0, got, turn; }
          assert OnlyPuts(naps) ==> OnlyPuts([naps[turn]]) by {
            if OnlyPuts(naps) {
              forall j | 0 <= j < |[naps[turn]][0].chunks| ensures [naps[turn]][0].chunks[j].Put?
              {
                assert naps[turn].chunks[j].Put?;
              }
            }
          }
          Sleep(naps[turn]);
          signal := naps[turn].signal;
          turn := turn + 1;
        } else {
          var more := TakeChunk(count - |got|);
          got := got + more;
        }
      }
      return true, |got|, got, turn;
    }

    /** write_pipe. With one writer, what it has sent is in the stream in order; it stops early
        only when the readers are gone, with SIGPIPE. */
    method WritePipe(data: seq<nat>, naps: seq<Nap>) returns (done: bool, ret: int, sent: nat, sigpipe: bool)
      requires Valid()
      modifies this, page
      ensures Valid() && old(read) <= read && sent <= |data|
      ensures OnlyTakes(naps) ==> written == old(written) + data[..sent]
      ensures done ==> ret == (if sent == 0 && sigpipe then -1 else sent) && (sigpipe <==> sent < |data|)
      ensures sigpipe ==> !peer && |written| == |read| + 4095
      ensures !done ==> peer && |written| == |read| + 4095
    {
      sent, sigpipe := 0, false;
      var turn := 0;
      while sent < |data|
        invariant Valid() && old(read) <= read && sent <= |data| && 0 <= turn <= |naps| && !sigpipe
        invariant OnlyTakes(naps) ==> written == old(written) + data[..sent]
        decreases |naps| - turn, |data| - sent
      {
        SizeIsDifference(|written|, |read|);
        if 4095 - Size() == 0 {
          if !peer { return true, if sent > 0 then sent else -1, sent, true; }
          if turn == |naps| { return false, 0, sent, false; }
          assert OnlyTakes(naps) ==> OnlyTakes([naps[turn]]) by {
            if OnlyTakes(naps) {
              forall j | 0 <= j < |[naps[turn]][0].chunks| ensures [naps[turn]][0].chunks[j].Take?
              {
                assert naps[turn].chunks[j].Take?;
              }
            }
          }
          Sleep(naps[turn]);
          turn := turn + 1;
        } else {
          var chars := PutChunk(data[sent..]);
          assert data[..sent] + data[sent..][..chars] == data[..sent + chars];
          sent := sent + chars;
        }
      }
      return true, sent, sent, false;
    }
  }
}
