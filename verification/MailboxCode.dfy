/** The code of the mailbox. */
module MailboxCode {
  // They work over their own arrays, each shown to do, when it runs alone, exactly the steps of module Mailbox
  // that it is made of.

  import opened Mailbox

  /** The rounds of finish_write's loop from reader r on. */
  function GiveFrom(s: State, r: nat): (s': State)
    requires Sized(s) && r <= |s.comm|
    ensures Sized(s') && |s'.comm| == |s.comm|
    decreases |s.comm| - r
  {
    if r == |s.comm| then s else GiveFrom(GiveStep(s, r), r + 1)
  }

  class Channels {
    const n: nat
    const comm: array<int>
    const reading: array<int>
    const lastRead: array<int>
    const lastTaken: array<int>
    var writing: int
    var lastGiven: int
    ghost var data: seq<nat>
    ghost var count: nat
    ghost var w: WriterPc

    ghost predicate Valid()
      reads this, comm, reading, lastRead, lastTaken
    {
      && comm.Length == reading.Length == lastRead.Length == lastTaken.Length == n && |data| == n + 2
      && comm != reading && comm != lastRead && comm != lastTaken
      && reading != lastRead && reading != lastTaken && lastRead != lastTaken
    }

    /** The state of the step system these arrays hold. */
    ghost function View(): State
      reads this, comm, reading, lastRead, lastTaken
    {
      State(comm[..], reading[..], lastRead[..], lastTaken[..], writing, lastGiven, data, count, w)
    }

    /** initialize_channels, initialize_reader and initialize_writer. */
    constructor (n: nat)
      ensures Valid() && fresh(comm) && fresh(reading) && fresh(lastRead) && fresh(lastTaken)
      ensures this.n == n && View() == Init(n)
    {
      this.n := n;
      comm := new int[n](_ => FIRST);
      reading := new int[n](_ => EMPTY);
      lastRead := new int[n](_ => 1);
      lastTaken := new int[n](_ => 1);
      writing, lastGiven := EMPTY, FIRST;
      data, count, w := seq(n + 2, _ => 0), 0, WIdle;
    }

    method Exchange(r: nat, v: int) returns (x: int)
      requires r < comm.Length
      modifies comm
      ensures x == old(comm[r]) && comm[..] == old(comm[..])[r := v]
    {
      x := comm[r];
      comm[r] := v;
    }

    method StartRead(r: nat) returns (b: int)
      requires Valid() && r < n
      modifies comm, reading, lastRead
      ensures Valid() && View() == TakeStep(old(View()), r) && b == reading[r]
    {
      b := Exchange(r, EMPTY);
      if b >= 0 && b < n + 2 {
        lastRead[r] := b;
      } else {
        b := lastRead[r];
      }
      reading[r] := b;
    }

    method FinishRead(r: nat)
      requires Valid() && r < n
      modifies reading
      ensures Valid() && View() == old(View()).(reading := old(reading[..])[r := EMPTY])
    {
      reading[r] := EMPTY;
    }

    /** The search for a buffer no reader can be using; found is false where the source calls exit(1). */
    method StartWrite() returns (found: bool, b: nat)
      requires Valid() && 0 <= lastGiven < n + 2
      requires forall r :: 0 <= r < n ==> lastTaken[r] == EMPTY || 0 <= lastTaken[r] < n + 2
      modifies this`writing, this`w
      ensures Valid() && View() == StartWriteStep(old(View()))
      ensures found <==> w == WHolds
      ensures found ==> b == writing
    {
      var available := new bool[n + 2](_ => true);
      available[lastGiven] := false;
      for r := 0 to n
        modifies available
        invariant forall i :: 0 <= i < n + 2 ==> available[i] == Free(lastGiven, lastTaken[..r], i)
      {
        var last := lastTaken[r];
        if last != EMPTY { available[last] := false; }
        assert lastTaken[..r + 1] == lastTaken[..r] + [last];
        FreeSnoc(lastGiven, lastTaken[..r], last, n + 2);
      }
      assert lastTaken[..n] == lastTaken[..];
      for i := 0 to n + 2
        invariant forall j :: 0 <= j < i ==> !Free(lastGiven, lastTaken[..], j)
        invariant View() == old(View())
      {
        if available[i] {
          FirstFreeIs(lastGiven, lastTaken[..], n + 2, i, 0);
          writing, w := i, WHolds;
          return true, i;
        }
      }
      FirstFreeNone(lastGiven, lastTaken[..], n + 2);
      w := WExit;
      return false, 0;
    }

    /** Run alone, finish_write is one Give for every reader and then EndWrite. */
    method FinishWrite()
      requires Valid()
      modifies this, comm, lastTaken
      ensures Valid() && View() == EndWriteStep(GiveFrom(old(View()), 0))
    {
      var last, wr := lastGiven, writing;
      assert View() == old(View());
      for r := 0 to n
        invariant Valid() && lastGiven == last && writing == wr
        invariant Sized(View()) && GiveFrom(View(), r) == GiveFrom(old(View()), 0)
      {
        ghost var s := View();
        var b := Exchange(r, wr);
        if b == EMPTY { lastTaken[r] := last; }
        w := WGives(r + 1);
        assert View() == GiveStep(s, r);
      }
      lastGiven := wr;
      writing := EMPTY;
      w := WIdle;
    }
  }

  lemma FreeSnoc(lastGiven: int, taken: seq<int>, last: int, buffers: nat)
    ensures forall i :: 0 <= i < buffers ==>
      (Free(lastGiven, taken + [last], i) <==> Free(lastGiven, taken, i) && i != last)
  {
    forall i | 0 <= i < buffers ensures Free(lastGiven, taken + [last], i) <==> Free(lastGiven, taken, i) && i != last {
      var t := taken + [last];
      assert t[|taken|] == last;
      assert forall r :: 0 <= r < |taken| ==> t[r] == taken[r];
    }
  }

  lemma FirstFreeIs(lastGiven: int, taken: seq<int>, buffers: nat, b: nat, from: nat)
    requires from <= b < buffers && Free(lastGiven, taken, b)
    requires forall i :: from <= i < b ==> !Free(lastGiven, taken, i)
    ensures FirstFree(lastGiven, taken, buffers, from) == b
    decreases b - from
  {
  }

  lemma FirstFreeNone(lastGiven: int, taken: seq<int>, buffers: nat)
    requires forall i :: 0 <= i < buffers ==> !Free(lastGiven, taken, i)
    ensures FirstFree(lastGiven, taken, buffers, 0) == buffers
  {
  }
}
