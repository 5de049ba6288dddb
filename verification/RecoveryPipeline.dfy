/** One recovery pipeline: byte accounting, promotion, and teardown that never signals a reaped leader. */
module RecoveryPipeline {
  import opened Common

  const BLOCK := 64 * 1024

  /** Some(status) is an exited but unreaped leader: its exit status, or minus the signal that ended it. */
  datatype Entry = Entry(serial: nat, status: Option<int>)

  /** A child this pipeline launched; serial tells it apart from every other process, before or after, with its PID. */
  datatype Child = Child(pid: nat, serial: nat, returncode: Option<int>)

  /** One killpg call for a child, with the process that held the PID at that moment. */
  datatype Signal = Signal(child: nat, pid: nat, target: Option<nat>)

  datatype Result = Result(passed: bool, promoted: bool, bytes: nat, sha256: string, returncodes: seq<Option<int>>,
                           stderrBytes: seq<nat>)

  /** Every unreaped child still holds its PID. */
  ghost predicate Holds(table: map<nat, Entry>, processes: seq<Child>) {
    forall i :: 0 <= i < |processes| && processes[i].returncode.None? ==>
                  processes[i].pid in table && table[processes[i].pid].serial == processes[i].serial
  }

  /** Unreaped children have different PIDs. */
  ghost predicate PidsDiffer(processes: seq<Child>) {
    forall i, j :: 0 <= i < j < |processes| && processes[i].returncode.None? && processes[j].returncode.None? ==>
                     processes[i].pid != processes[j].pid
  }

  /** A serial of ours is in the process table only as the unreaped child that has it. */
  predicate OurSerialsAreOurs(table: map<nat, Entry>, processes: seq<Child>) {
    forall pid, i :: pid in table && 0 <= i < |processes| && table[pid].serial == processes[i].serial ==>
                       pid == processes[i].pid && processes[i].returncode.None?
  }

  ghost predicate SerialsDiffer(processes: seq<Child>) {
    forall i, j :: 0 <= i < j < |processes| ==> processes[i].serial != processes[j].serial
  }

  /** A new process gets a free PID and is none of those that are or were. */
  predicate IsNew(table: map<nat, Entry>, processes: seq<Child>, pid: nat, serial: nat) {
    && pid !in table && (forall p :: p in table ==> table[p].serial != serial)
    && forall i :: 0 <= i < |processes| ==> processes[i].serial != serial
  }

  /**
   * Other processes come and go and take free PIDs. Our unreaped children keep theirs, and only their exit is up to
   * them; no other process has one of our serials.
   */
  predicate OthersMay(a: map<nat, Entry>, b: map<nat, Entry>, processes: seq<Child>) {
    && OurSerialsAreOurs(b, processes)
    && forall i :: 0 <= i < |processes| && processes[i].returncode.None? ==>
                     && processes[i].pid in a && processes[i].pid in b
                     && b[processes[i].pid].serial == a[processes[i].pid].serial
                     && (a[processes[i].pid].status.Some? ==> b[processes[i].pid] == a[processes[i].pid])
  }

  class Pipeline {
    const length: nat
    const maximum: nat
    const stderrMaximum: nat
    const expectedBytes: Option<nat>
    const expectedSha: Option<string>
    const deadline: nat
    const sha: Bytes -> string

    var table: map<nat, Entry>
    var processes: seq<Child>
    ghost var signals: seq<Signal>
    var now: nat
    var retained: Bytes            // what the partial file holds
    var count: nat
    var digest: Bytes              // what the hash object has absorbed
    var stderrSizes: seq<nat>
    var listening: set<nat>        // open pipes: stderr of child i, or the output as number `length`
    ghost var input: seq<Bytes>    // what has been read from each pipe
    ghost var ended: set<nat>      // the pipes whose end has been read
    var destination: Option<Bytes> // what the final name stands for, once linked
    ghost var refused: nat         // how often a call, a gate or a check of the environment failed
    ghost var late: bool           // a look at the clock found the deadline passed

    constructor (length: nat, maximum: nat, stderrMaximum: nat, expectedBytes: Option<nat>, expectedSha: Option<string>,
                 deadline: nat, now: nat, sha: Bytes -> string, table: map<nat, Entry>)
      ensures Valid() && processes == [] && signals == [] && destination.None? && Untouched() && Free()
      ensures this.length == length && this.maximum == maximum && this.expectedBytes == expectedBytes
      ensures this.expectedSha == expectedSha && this.sha == sha
    {
      this.length, this.maximum, this.stderrMaximum := length, maximum, stderrMaximum;
      this.expectedBytes, this.expectedSha, this.deadline, this.sha := expectedBytes, expectedSha, deadline, sha;
      this.table, this.now := table, now;
      processes, signals, retained, count, digest := [], [], [], 0, [];
      stderrSizes, listening, destination := seq(length, _ => 0), {}, None;
      input, ended := seq(length + 1, _ => []), {};
      refused, late := 0, false;
    }

    /** So far the environment has let everything through, in time. */
    ghost predicate Free()
      reads this`refused, this`late
    {
      refused == 0 && !late
    }

    /** A call, a gate or a check that is up to the environment; it can only pass if it is possible at all. */
    method Allowed(possible: bool) returns (ok: bool)
      modifies this`refused
      ensures ok ==> possible
      ensures refused == old(refused) + if ok then 0 else 1
    {
      ok := *;
      ok := ok && possible;
      if !ok { refused := refused + 1; }
    }

    /** A look at the clock. */
    method InTime() returns (ok: bool)
      modifies this`late
      ensures ok <==> now < deadline
      ensures late <==> old(late) || !ok
    {
      ok := now < deadline;
      if !ok { late := true; }
    }

    /** What was read is within the limits and what the caller said it must be. */
    ghost predicate Acceptable()
      requires |input| == length + 1
      reads this`input, this`stderrSizes
    {
      && |input[length]| <= maximum && (expectedBytes.Some? ==> |input[length]| == expectedBytes.value)
      && (expectedSha.Some? ==> sha(input[length]) == expectedSha.value)
      && forall i :: 0 <= i < |stderrSizes| ==> stderrSizes[i] <= stderrMaximum
    }

    /** What holds between any two steps of the run. */
    ghost predicate Valid()
      reads this
    {
      Owned() && Accounted() && (destination.Some? ==> destination.value == retained)
    }

    /** The children and their place in the process table. */
    ghost predicate Owned()
      reads this`table, this`processes
    {
      && |processes| <= length && Holds(table, processes) && PidsDiffer(processes)
      && SerialsDiffer(processes) && OurSerialsAreOurs(table, processes)
    }

    /** The bytes and the pipes. */
    ghost predicate Accounted()
      reads this`retained, this`count, this`digest, this`stderrSizes, this`input, this`listening, this`ended
    {
      && |retained| == count <= maximum && digest == retained
      && (expectedBytes.Some? ==> count <= expectedBytes.value)
      && |input| == length + 1 && retained <= input[length]
      && |stderrSizes| == length && (forall i :: 0 <= i < length ==> stderrSizes[i] == |input[i]|)
      && listening !! ended && (forall k :: k in listening ==> k <= length)
    }

    ghost predicate NoneReaped()
      reads this
    {
      forall i :: 0 <= i < |processes| ==> processes[i].returncode.None?
    }

    /** Nothing has been read yet. */
    ghost predicate Untouched()
      reads this
    {
      && retained == [] && listening == {} && ended == {}
      && (forall i :: 0 <= i < |input| ==> input[i] == []) && forall i :: 0 <= i < |stderrSizes| ==> stderrSizes[i] == 0
    }

    /** No output read so far was dropped, and no stderr was too much. */
    ghost predicate AllKept()
      requires |input| == length + 1
      reads this`retained, this`input, this`stderrSizes
    {
      retained == input[length] && forall i :: 0 <= i < |stderrSizes| ==> stderrSizes[i] <= stderrMaximum
    }

    /** The signals so far went to different children in turn, and each hit the leader it was meant for. */
    ghost predicate SignalsOwn()
      reads this
    {
      && (forall k :: 0 <= k < |signals| ==>
                        && signals[k].child < |processes| && signals[k].pid == processes[signals[k].child].pid
                        && signals[k].target == Some(processes[signals[k].child].serial))
      && forall j, k :: 0 <= j < k < |signals| ==> signals[j].child < signals[k].child
    }

    /** Time passes and other processes run. */
    method Others()
      requires Valid()
      modifies this`table, this`now
      ensures Valid() && now > old(now) && OthersMay(old(table), table, processes)
    {
      var next: map<nat, Entry>, elapsed: nat := *, *;
      if OthersMay(table, next, processes) {
        table := next;
      }
      now := if elapsed > 0 then now + elapsed else now + 1;
    }

    /** child_status: looks at the leader without reaping it; the call may also fail. */
    method ChildStatus(i: nat) returns (r: Outcome<Option<int>>)
      requires Valid() && i < |processes|
      modifies this`refused
      ensures Valid() && (processes[i].returncode.Some? ==> r == Raised)
      ensures r.Returned? ==> r.value == table[processes[i].pid].status
      ensures refused == old(refused) + if r.Raised? && processes[i].returncode.None? then 1 else 0
    {
      if processes[i].returncode.Some? { return Raised; }
      var ok := Allowed(true);
      r := if ok then Returned(table[processes[i].pid].status) else Raised;
    }

    // ----- launching -------------------------------------------------------------------

    method Launch() returns (ok: bool)
      requires Valid() && NoneReaped() && |processes| < length && ended == {} && Free()
      modifies this`table, this`processes, this`now, this`listening, this`refused, this`late
      ensures Valid() && NoneReaped() && (ok ==> now < deadline) && (ok <==> Free())
      ensures if !ok then processes == old(processes) && listening == old(listening)
              else
                && |processes| == |old(processes)| + 1 && processes[..|old(processes)|] == old(processes)
                && listening == old(listening) + {|old(processes)|}
                && forall i :: 0 <= i < |old(processes)| ==>
                                 && processes[i].serial != processes[|old(processes)|].serial
                                 && processes[i].pid != processes[|old(processes)|].pid
    {
      Others();
      ok := InTime();
      if ok { ok := Start(); }
    }

    /** Popen: a new process with a free PID, and its stderr is listened to. */
    method Start() returns (ok: bool)
      requires Valid() && NoneReaped() && |processes| < length && ended == {} && Free()
      modifies this`table, this`processes, this`listening, this`refused
      ensures Valid() && NoneReaped() && (ok <==> Free())
      ensures if !ok then processes == old(processes) && listening == old(listening)
              else
                && |processes| == |old(processes)| + 1 && processes[..|old(processes)|] == old(processes)
                && listening == old(listening) + {|old(processes)|}
                && forall i :: 0 <= i < |old(processes)| ==>
                                 && processes[i].serial != processes[|old(processes)|].serial
                                 && processes[i].pid != processes[|old(processes)|].pid
    {
      var pid: nat, serial: nat := *, *;
      ok := Allowed(IsNew(table, processes, pid, serial));
      if ok {
        table := table[pid := Entry(serial, None)];
        listening := listening + {|processes|};
        processes := processes + [Child(pid, serial, None)];
      }
    }

    // ----- reading and writing ---------------------------------------------------------

    /** Keeping one chunk despite short writes; only bytes that reached the file are counted and hashed. */
    method Keep(chunk: Bytes) returns (ok: bool)
      requires Valid() && destination.None? && input[length] == retained + chunk && Free()
      modifies this`retained, this`count, this`digest, this`refused
      ensures Valid() && old(retained) <= retained <= old(retained) + chunk
      ensures ok ==> retained == old(retained) + chunk
      ensures ok ==> old(count) + |chunk| <= maximum
      ensures if ok then Free() else !Free() || !Acceptable()
    {
      if count + |chunk| > maximum || (expectedBytes.Some? && count + |chunk| > expectedBytes.value) { return false; }
      var view := chunk;
      while view != []
        invariant Valid() && |view| <= |chunk| && view == chunk[|chunk| - |view|..]
        invariant count + |view| == old(count) + |chunk|
        invariant retained == old(retained) + chunk[..|chunk| - |view|] && Free()
        decreases |view|
      {
        var written: int := *;
        ok := Allowed(0 < written <= |view|);
        if !ok { return; }
        retained := retained + view[..written];
        digest := digest + view[..written];
        count := count + written;
        view := view[written..];
      }
      ok := true;
    }

    /**
     * One ready pipe: the end of its input closes it, a stderr chunk is counted against the stderr maximum, and an
     * output chunk is kept whole. On success nothing read so far has been dropped.
     */
    method Receive(key: nat, chunk: Bytes) returns (ok: bool)
      requires Valid() && destination.None? && key in listening && AllKept() && Free()
      modifies this`retained, this`count, this`digest, this`stderrSizes, this`listening, this`input, this`ended,
               this`refused
      ensures Valid() && input == old(input)[key := old(input)[key] + chunk]
      ensures if chunk == [] then listening == old(listening) - {key} && ended == old(ended) + {key}
              else listening == old(listening) && ended == old(ended)
      ensures ok ==> AllKept()
      ensures if ok then Free() else !Free() || !Acceptable()
      ensures ok && key == length ==> retained == old(retained) + chunk && stderrSizes == old(stderrSizes)
      ensures key < length ==>
                && retained == old(retained) && stderrSizes == old(stderrSizes)[key := |input[key]|]
                && (ok <==> |input[key]| <= stderrMaximum)
    {
      input := input[key := input[key] + chunk];
      if chunk == [] {
        listening, ended := listening - {key}, ended + {key};
        ok := true;
      } else if key < length {
        stderrSizes := stderrSizes[key := stderrSizes[key] + |chunk|];
        ok := stderrSizes[key] <= stderrMaximum;
      } else {
        ok := Keep(chunk);
      }
    }

    predicate AllExitedWith0()
      requires Holds(table, processes)
      reads this
    {
      forall i :: 0 <= i < |processes| ==> processes[i].returncode.None? && table[processes[i].pid].status == Some(0)
    }

    predicate SomeRunning()
      requires Holds(table, processes)
      reads this
    {
      exists i :: 0 <= i < |processes| && processes[i].returncode.None? && table[processes[i].pid].status.None?
    }

    predicate SomeFailed()
      requires Holds(table, processes)
      reads this
    {
      exists i :: 0 <= i < |processes| && processes[i].returncode.None?
                  && table[processes[i].pid].status !in {None, Some(0)}
    }

    /** The event loop: it succeeds only when every pipe has ended and every child has exited, with all input kept. */
    method Pump() returns (ok: bool)
      requires Valid() && destination.None? && AllKept() && Free()
      modifies this`table, this`now, this`retained, this`count, this`digest, this`stderrSizes, this`listening,
               this`input, this`ended, this`refused, this`late
      ensures Valid()
      ensures if ok then Free() else !Free() || !Acceptable() || SomeFailed()
      ensures ended >= old(ended + listening) - listening
      ensures ok ==> listening == {} && !SomeRunning() && AllKept() && (now < deadline || now == old(now))
    {
      while listening != {} || SomeRunning()
        invariant Valid() && AllKept() && ended >= old(ended + listening) - listening
        invariant (now < deadline || now == old(now)) && Free()
        decreases if now < deadline then deadline - now else 0
      {
        ok := Turn();
        if !ok { return; }
      }
      ok := true;
    }

    /** One turn of the event loop. */
    method Turn() returns (ok: bool)
      requires Valid() && destination.None? && AllKept() && Free()
      modifies this`table, this`now, this`retained, this`count, this`digest, this`stderrSizes, this`listening,
               this`input, this`ended, this`refused, this`late
      ensures Valid() && ended >= old(ended + listening) - listening
      ensures ok ==> AllKept() && Free() && old(now) < now < deadline
      ensures !ok ==> !Free() || !Acceptable() || SomeFailed()
    {
      ok := InTime();
      if !ok { return; }
      Others();
      ok := Allowed(true);
      if !ok || SomeFailed() { return false; }
      ok := ReceiveReady();
      if !ok { return; }
      ok := InTime();
    }

    /** Every pipe that is ready when the selector returns. */
    method ReceiveReady() returns (ok: bool)
      requires Valid() && destination.None? && AllKept() && Free()
      modifies this`retained, this`count, this`digest, this`stderrSizes, this`listening, this`input, this`ended,
               this`refused
      ensures Valid() && (ok ==> AllKept()) && ended >= old(ended + listening) - listening
      ensures if ok then Free() else !Free() || !Acceptable()
    {
      var pending := listening;
      while pending != {}
        invariant Valid() && AllKept() && Free() && pending <= listening && ended >= old(ended + listening) - listening
        decreases pending
      {
        var key :| key in pending;
        pending := pending - {key};
        var ready: bool, chunk: Bytes := *, *;
        if ready && |chunk| <= BLOCK {
          ok := Receive(key, chunk);
          if !ok { return; }
        }
      }
      ok := true;
    }

    /** What the retained bytes must be, when the caller said so. */
    predicate AsExpected()
      reads this
    {
      && (expectedBytes.Some? ==> count == expectedBytes.value)
      && (expectedSha.Some? ==> sha(digest) == expectedSha.value)
    }

    /** Linking the partial file to the final name; the directory sync after it may still fail. */
    method Promote() returns (ok: bool)
      requires Valid() && destination.None? && Free()
      modifies this`destination, this`refused
      ensures Valid() && (ok ==> destination == Some(retained)) && (ok <==> Free())
    {
      ok := Allowed(true);
      if !ok { return; }
      destination := Some(retained);
      ok := Allowed(true);
    }

    /** All children, connected in turn; the last one's output is read as well. */
    method LaunchAll() returns (ok: bool)
      requires Valid() && processes == [] && destination.None? && listening == ended == {} && Free()
      modifies this`table, this`processes, this`now, this`listening, this`refused, this`late
      ensures Valid() && NoneReaped() && (ok <==> Free())
      ensures ok ==> |processes| == length && forall k :: 0 <= k <= length ==> k in listening
      ensures ok && length > 0 ==> now < deadline
    {
      while |processes| < length
        invariant Valid() && NoneReaped()
        invariant ended == {} && forall k :: k in listening <==> 0 <= k < |processes|
        invariant (|processes| > 0 ==> now < deadline) && Free()
        decreases length - |processes|
      {
        ok := Launch();
        if !ok { return; }
      }
      listening := listening + {length};
      ok := true;
    }

    /** The guarded part of run: launch, pump, check, promote. */
    method Attempt() returns (ok: bool)
      requires Valid() && processes == [] && destination.None? && Untouched() && Free()
      modifies this`table, this`processes, this`now, this`listening, this`retained, this`count,
               this`digest, this`stderrSizes, this`destination, this`input, this`ended, this`refused, this`late
      ensures Valid() && NoneReaped()
      ensures if ok then Free() && Acceptable() else !Free() || !Acceptable() || SomeFailed()
      ensures ok ==> |processes| == length && AllExitedWith0() && AsExpected() && destination == Some(retained)
      ensures ok ==> AllKept() && forall k :: 0 <= k <= length ==> k in ended
      ensures ok && length > 0 ==> now < deadline
    {
      ok := Allowed(true);
      if !ok { return; }
      ok := LaunchAll();
      if !ok { return; }
      ok := Pump();
      if !ok { return; }
      if !AllExitedWith0() || !AsExpected() { return false; }
      // the inputs are unchanged and the disk gate passes
      ok := Allowed(true);
      if !ok { return; }
      ok := Promote();
    }

    // ----- teardown --------------------------------------------------------------------

    /** Signals went to some of the first i children, or to each of them. */
    ghost predicate SentBefore(i: nat)
      reads this
    {
      forall k :: 0 <= k < |signals| ==> signals[k].child < i
    }

    ghost predicate SentEach(i: nat)
      reads this
    {
      |signals| == i && forall k :: 0 <= k < i ==> signals[k].child == k
    }

    /** killpg: reaches whoever holds the PID now; it may report an error. */
    method KillGroup(i: nat) returns (ok: bool)
      requires Valid() && NoneReaped() && SignalsOwn() && i < |processes|
      requires SentBefore(i)
      modifies this`signals, this`refused
      ensures Valid() && NoneReaped() && SignalsOwn() && SentBefore(i + 1)
      ensures refused == old(refused) + if ok then 0 else 1
      ensures old(SentEach(i)) ==> SentEach(i + 1)
      ensures signals == old(signals) + [Signal(i, processes[i].pid, Some(processes[i].serial))]
    {
      var pid := processes[i].pid;
      signals := signals + [Signal(i, pid, if pid in table then Some(table[pid].serial) else None)];
      ok := Allowed(true);
    }

    /** One turn of the loop: a leader whose status cannot be read gets no signal. */
    method KillOne(i: nat) returns (ok: bool)
      requires Valid() && NoneReaped() && SignalsOwn() && i < |processes| && SentBefore(i)
      modifies this`signals, this`table, this`now, this`refused
      ensures Valid() && NoneReaped() && SignalsOwn() && SentBefore(i + 1)
      ensures ok && old(SentEach(i)) ==> SentEach(i + 1)
      ensures refused == old(refused) + if ok then 0 else 1
      ensures OthersMay(old(table), table, processes)
    {
      Others();
      var status := ChildStatus(i);
      if status.Raised? { return false; }
      ok := KillGroup(i);
    }

    /**
     * Signalling every owned group while all leaders are still unreaped. A leader whose status cannot be read is left
     * alone and the teardown has failed; otherwise every group has had its signal.
     */
    method KillAll() returns (ok: bool)
      requires Valid() && NoneReaped() && signals == []
      modifies this`signals, this`table, this`now, this`refused
      ensures Valid() && NoneReaped() && SignalsOwn()
      ensures ok ==> SentEach(|processes|)
      ensures refused >= old(refused) && (ok <==> refused == old(refused))
      ensures OthersMay(old(table), table, processes)
    {
      ok := true;
      for i := 0 to |processes|
        invariant Valid() && NoneReaped() && SignalsOwn()
        invariant SentBefore(i) && (ok ==> SentEach(i))
        invariant refused >= old(refused) && (ok <==> refused == old(refused))
        invariant OthersMay(old(table), table, processes)
      {
        var killed := KillOne(i);
        ok := ok && killed;
      }
    }

    /** wait: reaps the leader, which frees its PID, unless it has not exited in time. */
    method Wait(i: nat) returns (ok: bool)
      requires Valid() && i < |processes| && processes[i].returncode.None?
      modifies this`table, this`processes, this`now
      ensures Valid() && |processes| == |old(processes)|
      ensures forall j :: 0 <= j < |processes| && j != i ==> processes[j] == old(processes)[j]
      ensures processes[i].pid == old(processes)[i].pid && processes[i].serial == old(processes)[i].serial
      ensures ok <==> processes[i].returncode.Some?
      ensures old(table)[old(processes)[i].pid].status.Some? ==>
                processes[i].returncode == old(table)[old(processes)[i].pid].status
      ensures forall j :: 0 <= j < |processes| && j != i && processes[j].returncode.None? ==>
                            && old(table)[processes[j].pid].serial == table[processes[j].pid].serial
                            && (old(table)[processes[j].pid].status.Some? ==>
                                  table[processes[j].pid] == old(table)[processes[j].pid])
    {
      Others();
      var pid := processes[i].pid;
      ok := table[pid].status.Some?;
      if ok {
        processes := processes[i := processes[i].(returncode := table[pid].status)];
        table := table - {pid};
      }
    }

    /** What a child is reaped with: the status it had exited with before, if it had. */
    predicate ReapedAs(child: Child, status: Option<int>) {
      status.Some? ==> child.returncode == status
    }

    /** Reaping, once nothing will be signalled any more. A child that had exited gets exactly its status. */
    method ReapAll() returns (ok: bool)
      requires Valid() && NoneReaped() && SignalsOwn()
      modifies this`table, this`processes, this`now
      ensures Valid() && SignalsOwn() && |processes| == |old(processes)|
      ensures forall i :: 0 <= i < |processes| ==> ReapedAs(processes[i], old(table[processes[i].pid].status))
      ensures ok <==> forall i :: 0 <= i < |processes| ==> processes[i].returncode.Some?
    {
      ok := true;
      for i := 0 to |processes|
        invariant Valid() && |processes| == |old(processes)|
        invariant forall j :: 0 <= j < |processes| ==>
                                && processes[j].pid == old(processes)[j].pid
                                && processes[j].serial == old(processes)[j].serial
        invariant forall j :: i <= j < |processes| ==> processes[j].returncode.None?
        invariant forall j :: i <= j < |processes| && old(table)[processes[j].pid].status.Some? ==>
                                table[processes[j].pid] == old(table)[processes[j].pid]
        invariant forall j :: 0 <= j < i ==> ReapedAs(processes[j], old(table)[processes[j].pid].status)
        invariant ok <==> forall j :: 0 <= j < i ==> processes[j].returncode.Some?
      {
        var reaped := Wait(i);
        ok := ok && reaped;
      }
    }

    /** Every child was launched and has exited with 0. */
    ghost predicate AllReapedWith0()
      reads this
    {
      |processes| == length && forall i :: 0 <= i < length ==> processes[i].returncode == Some(0)
    }

    /**
     * run: whatever happens, the reported sizes and hash are those of the retained bytes and of the stderr input, the
     * retained bytes are a beginning of the output within the maximum, and every signal hit the leader it was meant
     * for. A run passes exactly if the environment let every step through in time, every child exited with 0, and what
     * was read is acceptable; then every pipe was read to its end, the whole output was kept and promoted, and every
     * group had its signal.
     */
    method Run() returns (result: Result)
      requires Valid() && processes == [] && signals == [] && destination.None? && Untouched() && Free()
      modifies this
      ensures Valid() && SignalsOwn()
      ensures result.bytes == |retained| <= maximum && result.sha256 == sha(retained)
      ensures retained <= input[length]
      ensures |result.stderrBytes| == length && forall i :: 0 <= i < length ==> result.stderrBytes[i] == |input[i]|
      ensures result.promoted <==> destination.Some?
      ensures result.promoted ==> destination == Some(retained)
      ensures result.returncodes
           == seq(|processes|, i requires 0 <= i < |processes| reads this => processes[i].returncode)
      ensures result.passed <==> Free() && Acceptable() && AllReapedWith0()
      ensures result.passed ==>
                && result.promoted && retained == input[length] && SentEach(length)
                && forall k :: 0 <= k <= length ==> k in ended
    {
      var attempted := Attempt();
      var killed := KillAll();
      var reaped := ReapAll();
      var passed := attempted && killed && reaped;
      result := Result(passed, destination.Some?, count, sha(digest),
                       seq(|processes|, i requires 0 <= i < |processes| reads this => processes[i].returncode),
                       stderrSizes);
    }
  }

  /** A PID that was reaped may belong to someone else one step later: signalling it then could hit a stranger. */
  lemma ReapedPidMayBeReused(table: map<nat, Entry>, processes: seq<Child>, i: nat, stranger: nat)
    requires Holds(table, processes) && OurSerialsAreOurs(table, processes)
    requires i < |processes| && processes[i].returncode.Some? && processes[i].pid !in table
    requires forall j :: 0 <= j < |processes| ==> processes[j].serial != stranger
    ensures exists next: map<nat, Entry> ::
              && OthersMay(table, next, processes)
              && processes[i].pid in next && next[processes[i].pid].serial == stranger
  {
    var next := table[processes[i].pid := Entry(stranger, None)];
    assert OthersMay(table, next, processes);
  }
}
