/**
 The pipe of pipe.c: a ring of 512 bytes with 32-bit counters that wrap.

 Each method is one section between taking the pipe's lock and giving it up, whether by release or by
 sleep; a process that wakes up runs the section again from where it slept. Any sequence of calls is an
 interleaving of readers and writers.
 */
module Pipes {
  import opened Blocks

  const PIPESIZE: nat := 512
  const UINT: nat := 0x1_0000_0000

  /** The 32-bit counter after n bytes. */
  function Counter(n: nat): nat {
    n % UINT
  }

  /** The slot of a byte does not depend on how often the counter has wrapped. */
  lemma CounterIndex(n: nat)
    ensures Counter(n) % PIPESIZE == n % PIPESIZE
  {
    var q := n / UINT;
    assert n == PIPESIZE * (0x80_0000 * q) + Counter(n);
  }

  /** Comparing wrapped counters decides the true number of bytes held, at any distance up to 512. */
  lemma CountersExact(r: nat, w: nat)
    requires r <= w <= r + PIPESIZE
    ensures Counter(w) == Counter(r) <==> w == r
    ensures Counter(w) == (Counter(r) + PIPESIZE) % UINT <==> w == r + PIPESIZE
    ensures (Counter(w) - Counter(r)) % UINT == w - r
  {
  }

  lemma CounterNext(n: nat)
    ensures (Counter(n) + 1) % UINT == Counter(n + 1)
  {
  }

  /** Two bytes less than 512 apart have different slots. */
  lemma SlotsApart(j: nat, k: nat)
    requires j < k < j + PIPESIZE
    ensures j % PIPESIZE != k % PIPESIZE
  {
  }

  /** The ring holds the bytes appended from position r on. */
  predicate Holds(data: seq<Byte>, appended: seq<Byte>, r: nat) {
    && |data| == PIPESIZE && r <= |appended| <= r + PIPESIZE
    && forall k {:trigger appended[k]} :: r <= k < |appended| ==> data[k % PIPESIZE] == appended[k]
  }

  lemma AppendHolds(data: seq<Byte>, appended: seq<Byte>, r: nat, b: Byte)
    requires Holds(data, appended, r) && |appended| < r + PIPESIZE
    ensures Holds(data[|appended| % PIPESIZE := b], appended + [b], r)
  {
    var now := appended + [b];
    forall k | r <= k < |now| ensures data[|appended| % PIPESIZE := b][k % PIPESIZE] == now[k] {
      if k < |appended| {
        SlotsApart(k, |appended|);
        assert data[k % PIPESIZE] == appended[k];
      }
    }
  }

  datatype WriteOutcome =
    | Wrote      // returned n
    | Failed     // returned -1
    | WriterSleeps(next: nat)  // asleep on &p->nwrite, to go on with byte `next`

  datatype ReadOutcome =
    | Took(bytes: seq<Byte>)
    | ReadFailed
    | ReaderSleeps

  class Pipe {
    const data: array<Byte>
    var nread: nat
    var nwrite: nat
    var readopen: bool
    var writeopen: bool
    var readers: set<nat>  // processes asleep on &p->nread
    var writers: set<nat>  // processes asleep on &p->nwrite
    ghost var appended: seq<Byte>  // every byte ever put into the ring
    ghost var taken: seq<Byte>  // every byte ever read out of it

    /** First in, first out, with at most 512 bytes on the way, whatever the counters have wrapped to. */
    ghost predicate Fifo()
      reads this, data
    {
      && taken <= appended
      && Holds(data[..], appended, |taken|)
      && nread == Counter(|taken|) && nwrite == Counter(|appended|)
    }

    ghost predicate Empty()
      reads this
    {
      |taken| == |appended|
    }

    ghost predicate Full()
      reads this
    {
      |appended| == |taken| + PIPESIZE
    }

    /** Nobody sleeps who could go on. The order of the bytes does not depend on it. */
    ghost predicate NoLostWakeup()
      reads this
    {
      && (readers != {} ==> Empty() && writeopen && readopen)
      && (writers != {} ==> Full() && readopen && writeopen)
    }

    /** pipealloc; the page it gets from kalloc holds arbitrary bytes. */
    constructor (page: array<Byte>)
      requires page.Length == PIPESIZE
      ensures Fifo() && NoLostWakeup() && data == page && appended == [] && readopen && writeopen && readers == {}
      ensures writers == {}
    {
      data := page;
      nread, nwrite, readopen, writeopen, readers, writers := 0, 0, true, true, {}, {};
      appended, taken := [], [];
    }

    method Put(b: Byte)
      requires Fifo() && !Full()
      modifies this`nwrite, this`appended, data
      ensures Fifo() && appended == old(appended) + [b]
    {
      CounterIndex(|appended|);
      CounterNext(|appended|);
      AppendHolds(data[..], appended, |taken|, b);
      data[nwrite % PIPESIZE] := b;
      nwrite := (nwrite + 1) % UINT;
      appended := appended + [b];
    }

    method Get() returns (b: Byte)
      requires Fifo() && !Empty()
      modifies this`nread, this`taken
      ensures Fifo() && taken == old(taken) + [b]
    {
      CounterIndex(|taken|);
      CounterNext(|taken|);
      b := data[nread % PIPESIZE];
      assert b == appended[|taken|];
      nread := (nread + 1) % UINT;
      taken := taken + [b];
    }

    /**
     pipewrite of addr from byte `from`: all that fits is appended, and then the writer is done, gives up, or
     sleeps. Nobody is left asleep wrongly, except that a killed writer which fills the pipe leaves sleeping
     readers asleep beside the 512 bytes it has put in for them.
     */
    method Write(me: nat, addr: seq<Byte>, from: nat, killed: bool) returns (r: WriteOutcome)
      requires Fifo() && from <= |addr| && writeopen && me !in writers
      modifies this`nwrite, this`appended, this`readers, this`writers, data
      ensures Fifo()
      ensures
        var room := 512 - (|old(appended)| - |taken|);
        && 0 <= room && appended == old(appended) + addr[from..if |addr| - from <= room then |addr| else from + room]
        && (r.Wrote? <==> |addr| - from <= room)
        && (r.WriterSleeps? ==> r.next == from + room)
      ensures r.Failed? <==> !r.Wrote? && (!readopen || killed)
      ensures readers == (if r.Failed? then old(readers) else {})
      ensures writers == (if r.WriterSleeps? then old(writers) + {me} else old(writers))
      ensures old(NoLostWakeup()) ==> (NoLostWakeup() <==> !(killed && old(readers) != {} && |addr| - from > PIPESIZE))
    {
      var i := from;
      while i < |addr|
        invariant from <= i <= |addr| && Fifo() && appended == old(appended) + addr[from..i]
        invariant readers == old(readers) && writers == old(writers)
      {
        CountersExact(|taken|, |appended|);
        if nwrite == (nread + PIPESIZE) % UINT {
          if !readopen || killed {
            return Failed;
          }
          readers := {};
          writers := writers + {me};
          return WriterSleeps(i);
        }
        Put(addr[i]);
        i := i + 1;
      }
      readers := {};
      r := Wrote;
    }

    /**
     piperead of n bytes: exactly the oldest bytes not read yet, as many as there are up to n, and all
     sleeping writers are woken; on an empty pipe with an open write end the reader sleeps or gives up.
     */
    method Read(me: nat, n: int, killed: bool) returns (r: ReadOutcome)
      requires Fifo() && readopen && me !in readers
      modifies this`nread, this`taken, this`readers, this`writers
      ensures Fifo() && (old(NoLostWakeup()) ==> NoLostWakeup())
      ensures r.Took? <==> !(old(Empty()) && writeopen)
      ensures r.ReadFailed? <==> !r.Took? && killed
      ensures r.Took? ==> taken == old(taken) + r.bytes && writers == {} && readers == old(readers)
      ensures r.Took? ==>
        var waiting := |appended| - |old(taken)|;
        |r.bytes| == if n < 0 then 0 else if n <= waiting then n else waiting
      ensures r.Took? ==> r.bytes == appended[|old(taken)|..|taken|]
      ensures !r.Took? ==> taken == old(taken) && writers == old(writers)
      ensures !r.Took? ==> readers == (if killed then old(readers) else old(readers) + {me})
    {
      CountersExact(|taken|, |appended|);
      if nread == nwrite && writeopen {
        if killed {
          return ReadFailed;
        }
        readers := readers + {me};
        return ReaderSleeps;
      }
      var i, bytes := 0, [];
      while i < n
        invariant 0 <= i == |bytes| && (n >= 0 ==> i <= n) && (n < 0 ==> i == 0)
        invariant Fifo() && taken == old(taken) + bytes && readers == old(readers)
      {
        CountersExact(|taken|, |appended|);
        if nread == nwrite {
          break;
        }
        var b := Get();
        bytes := bytes + [b];
        i := i + 1;
      }
      writers := {};
      r := Took(bytes);
    }

    /** pipeclose of one end, which the last reference to that end makes: nobody can be asleep in it. */
    method Close(writable: bool) returns (freed: bool)
      requires Fifo()
      requires if writable then writeopen && writers == {} else readopen && readers == {}
      modifies this`readopen, this`writeopen, this`readers, this`writers
      ensures Fifo() && (old(NoLostWakeup()) ==> NoLostWakeup())
      ensures freed == (!readopen && !writeopen) && readers == {} && writers == {}
      ensures writeopen == (!writable && old(writeopen)) && readopen == (writable && old(readopen))
    {
      if writable {
        writeopen := false;
        readers := {};
      } else {
        readopen := false;
        writers := {};
      }
      freed := !readopen && !writeopen;
    }

    /** kill wakes a sleeper, which finds `killed` set when it runs its section again. */
    method Kill(p: nat)
      requires Fifo()
      modifies this`readers, this`writers
      ensures Fifo() && (old(NoLostWakeup()) ==> NoLostWakeup())
      ensures readers == old(readers) - {p} && writers == old(writers) - {p}
    {
      readers := readers - {p};
      writers := writers - {p};
    }
  }

  /** The run that loses a wakeup: a reader sleeps, a writer of more than fits is killed, 512 bytes stay. */
  method KilledWriterStrandsReader(page: array<Byte>, addr: seq<Byte>) returns (p: Pipe)
    requires page.Length == PIPESIZE && |addr| > PIPESIZE
    modifies page
    ensures fresh(p) && p.data == page && p.Fifo() && p.readopen && p.writeopen
    ensures p.Full() && p.taken == [] && p.appended == addr[..PIPESIZE] && p.readers == {1}
    ensures !p.NoLostWakeup()
  {
    p := new Pipe(page);
    var r := p.Read(1, 1, false);
    var w := p.Write(2, addr, 0, true);
  }

  /** The next read still takes exactly those bytes, in order; the first reader stays asleep. */
  method StrandedBytesAreRead(page: array<Byte>, addr: seq<Byte>) returns (p: Pipe, got: seq<Byte>)
    requires page.Length == PIPESIZE && |addr| > PIPESIZE
    modifies page
    ensures got == addr[..PIPESIZE] && p.Fifo() && p.Empty() && p.readers == {1}
  {
    p := KilledWriterStrandsReader(page, addr);
    var s := p.Read(3, PIPESIZE, false);
    got := s.bytes;
  }
}
