/** The pieces of breakpoint-emulated single-stepping that are specified as
    values: planting a trap at every candidate address while recording the
    original words, putting the originals back, and classifying what a wait
    for the stepped thread reports. */
module Step {
  import opened Words
  import opened Errors
  import opened Tracee

  /** The state of the patch loop: the address space, the originals recorded
      so far (keyed by uintptr address) and the loop's error. */
  datatype PatchState = PatchState(space: AddressSpace, saved: map<u32, Word>, err: Error)

  /** The patch loop over `addrs`, in list order: peek the original word, poke
      the trap, and only then record the original. The first failed peek or
      poke ends the loop with its error. An address met twice is peeked again
      after it already holds the trap, so the trap is what gets recorded. */
  function Patch(space: AddressSpace, saved: map<u32, Word>, addrs: seq<u32>, trap: Word): (r: PatchState)
    ensures r.space.words.Keys == space.words.Keys
    ensures r.space.alive == space.alive && r.space.pokeDenied == space.pokeDenied
    ensures r.err == Nil <==> forall i :: 0 <= i < |addrs| ==> Pokeable(space, addrs[i])
    ensures r.err == Nil ==> forall i :: 0 <= i < |addrs| ==> r.space.words[addrs[i]] == trap
    ensures r.err == Nil ==> forall i :: 0 <= i < |addrs| ==> addrs[i] in r.saved
    ensures r.err != Nil ==> r.err == Errno(ESRCH) || r.err == Errno(EIO)
    ensures saved.Keys <= r.saved.Keys
    ensures forall a :: a in r.saved ==> a in saved || a in addrs
    ensures forall a :: a in r.saved && a !in saved ==> Pokeable(space, a)
    ensures forall a :: a in space.words && a !in addrs ==> r.space.words[a] == space.words[a]
    decreases |addrs|, 1
  {
    if addrs == [] then PatchState(space, saved, Nil)
    else
      var a := addrs[0];
      match Peek(space, a)
      case Err(e) => PatchState(space, saved, e)
      case Ok(original) =>
        match Poke(space, a, trap)
        case Err(e) => PatchState(space, saved, e)
        case Ok(patched) =>
          var rest := addrs[1..];
          PatchStepHead(space, saved, addrs, trap);
          PatchStepRecords(space, saved, addrs, trap);
          PatchStepKeeps(space, saved, addrs, trap);
          Patch(patched, saved[a := original], rest, trap)
  }

  /** The one-step facts behind Patch's contract when the head can be poked:
      the loop succeeds exactly when every candidate can be poked, and then
      every candidate holds the trap and is recorded. */
  lemma PatchStepHead(space: AddressSpace, saved: map<u32, Word>, addrs: seq<u32>, trap: Word)
    requires addrs != [] && Pokeable(space, addrs[0])
    ensures var a := addrs[0];
      var r := Patch(space.(words := space.words[a := trap]), saved[a := space.words[a]], addrs[1..], trap);
      && (r.err == Nil <==> forall i :: 0 <= i < |addrs| ==> Pokeable(space, addrs[i]))
      && (r.err == Nil ==> forall i :: 0 <= i < |addrs| ==> r.space.words[addrs[i]] == trap && addrs[i] in r.saved)
    decreases |addrs|, 0
  {
    var a, rest := addrs[0], addrs[1..];
    var patched := space.(words := space.words[a := trap]);
    var r := Patch(patched, saved[a := space.words[a]], rest, trap);
    assert forall x :: Pokeable(patched, x) == Pokeable(space, x);
    if r.err == Nil {
      assert r.space.words[a] == trap by {
        if a in rest {
          var j :| 0 <= j < |rest| && rest[j] == a;
          assert r.space.words[rest[j]] == trap;
        } else {
          assert patched.words[a] == trap;
        }
      }
      forall i | 0 <= i < |addrs| ensures Pokeable(space, addrs[i]) && r.space.words[addrs[i]] == trap && addrs[i] in r.saved {
        if i > 0 {
          var x := rest[i - 1];
          assert addrs[i] == x;
          assert Pokeable(patched, x) && r.space.words[x] == trap && x in r.saved;
        }
      }
    } else {
      var j :| 0 <= j < |rest| && !Pokeable(patched, rest[j]);
      assert addrs[j + 1] == rest[j];
    }
  }

  /** Every address the step records was recorded before or is a candidate
      that could be poked. */
  lemma PatchStepRecords(space: AddressSpace, saved: map<u32, Word>, addrs: seq<u32>, trap: Word)
    requires addrs != [] && Pokeable(space, addrs[0])
    ensures var a := addrs[0];
      var r := Patch(space.(words := space.words[a := trap]), saved[a := space.words[a]], addrs[1..], trap);
      && saved.Keys <= r.saved.Keys
      && (forall x :: x in r.saved ==> x in saved || x in addrs)
      && (forall x :: x in r.saved && x !in saved ==> Pokeable(space, x))
    decreases |addrs|, 0
  {
    var a, rest := addrs[0], addrs[1..];
    var patched := space.(words := space.words[a := trap]);
    var r := Patch(patched, saved[a := space.words[a]], rest, trap);
    assert forall x :: Pokeable(patched, x) == Pokeable(space, x);
    TailIn(addrs);
  }

  /** The step leaves every word outside the candidates as it was. */
  lemma PatchStepKeeps(space: AddressSpace, saved: map<u32, Word>, addrs: seq<u32>, trap: Word)
    requires addrs != [] && Pokeable(space, addrs[0])
    ensures var a := addrs[0];
      var r := Patch(space.(words := space.words[a := trap]), saved[a := space.words[a]], addrs[1..], trap);
      forall x :: x in space.words && x !in addrs ==> r.space.words[x] == space.words[x]
    decreases |addrs|, 0
  {
    var a, rest := addrs[0], addrs[1..];
    var patched := space.(words := space.words[a := trap]);
    var r := Patch(patched, saved[a := space.words[a]], rest, trap);
    TailIn(addrs);
  }

  /** Whatever is in the tail of a sequence is in the sequence. */
  lemma TailIn(addrs: seq<u32>)
    requires addrs != []
    ensures forall x :: x in addrs[1..] ==> x in addrs
  {
    assert addrs == [addrs[0]] + addrs[1..];
  }

  /** The address space after poking back the recorded originals whose keys
      are in `done`. A poke succeeds or fails independently of the others
      (it depends only on liveness, the mapped words and the refusals, which
      no poke changes), so the order of the pokes does not matter. */
  function RestoredPart(space: AddressSpace, saved: map<u32, Word>, done: set<u32>): (r: AddressSpace)
    ensures r.words.Keys == space.words.Keys
    ensures r.alive == space.alive && r.pokeDenied == space.pokeDenied
    ensures forall a :: a in done && a in saved && Pokeable(space, a) ==> r.words[a] == saved[a]
    ensures forall a :: a in space.words && !(a in done && a in saved && Pokeable(space, a)) ==>
      r.words[a] == space.words[a]
  {
    space.(words := map a | a in space.words ::
      if a in done && a in saved && Pokeable(space, a) then saved[a] else space.words[a])
  }

  /** Poking back one more original extends the restored part by that
      address, when the poke succeeds, and changes nothing otherwise. */
  lemma RestoredPartStep(space: AddressSpace, saved: map<u32, Word>, done: set<u32>, a: u32)
    requires a in saved
    ensures var before := RestoredPart(space, saved, done);
      RestoredPart(space, saved, done + {a}) ==
        if Pokeable(space, a) then before.(words := before.words[a := saved[a]]) else before
  {
    var before := RestoredPart(space, saved, done);
    if Pokeable(space, a) {
      assert RestoredPart(space, saved, done + {a}).words == before.words[a := saved[a]];
    } else {
      assert RestoredPart(space, saved, done + {a}).words == before.words;
    }
  }

  /** The deferred restore: every recorded original poked back. */
  function Restored(space: AddressSpace, saved: map<u32, Word>): (r: AddressSpace)
    ensures r.words.Keys == space.words.Keys
    ensures r.alive == space.alive && r.pokeDenied == space.pokeDenied
    ensures forall a :: a in saved && Pokeable(space, a) ==> r.words[a] == saved[a]
    ensures forall a :: a in space.words && a !in saved ==> r.words[a] == space.words[a]
  {
    RestoredPart(space, saved, saved.Keys)
  }

  /** The uintptr addresses of the candidate PCs. */
  function TrapAddresses(pcs: seq<u64>): (a: seq<u32>)
    ensures |a| == |pcs| && forall i :: 0 <= i < |pcs| ==> a[i] == Trunc32(pcs[i])
  {
    seq(|pcs|, i requires 0 <= i < |pcs| => Trunc32(pcs[i]))
  }

  predicate Distinct(addrs: seq<u32>)
  {
    forall i, j :: 0 <= i < j < |addrs| ==> addrs[i] != addrs[j]
  }

  /** Patching distinct addresses that were not recorded before and then
      restoring gives the same memory as restoring alone, whether or not the
      patch loop stopped early. */
  lemma {:induction false} RestoreAfterPatch(space: AddressSpace, saved: map<u32, Word>, addrs: seq<u32>, trap: Word)
    requires Distinct(addrs)
    requires forall i :: 0 <= i < |addrs| ==> addrs[i] !in saved
    ensures var r := Patch(space, saved, addrs, trap);
      Restored(r.space, r.saved) == Restored(space, saved)
    decreases |addrs|
  {
    if addrs != [] {
      var a := addrs[0];
      if Pokeable(space, a) {
        var original := space.words[a];
        var patched := space.(words := space.words[a := trap]);
        var rest := addrs[1..];
        var saved' := saved[a := original];
        assert Distinct(rest);
        assert forall i :: 0 <= i < |rest| ==> rest[i] !in saved' by {
          forall i | 0 <= i < |rest| ensures rest[i] !in saved' {
            assert rest[i] == addrs[i + 1];
          }
        }
        assert Patch(space, saved, addrs, trap) == Patch(patched, saved', rest, trap);
        RestoreAfterPatch(patched, saved', rest, trap);
        RestoreOverOnePatch(space, saved, a, trap);
      }
    }
  }

  /** One patched address whose original is recorded restores to the same
      memory as the unpatched space. */
  lemma RestoreOverOnePatch(space: AddressSpace, saved: map<u32, Word>, a: u32, trap: Word)
    requires Pokeable(space, a) && a !in saved
    ensures Restored(space.(words := space.words[a := trap]), saved[a := space.words[a]]) == Restored(space, saved)
  {
    var patched := space.(words := space.words[a := trap]);
    var saved' := saved[a := space.words[a]];
    var lhs, rhs := Restored(patched, saved'), Restored(space, saved);
    forall k | k in space.words ensures lhs.words[k] == rhs.words[k] {
      assert Pokeable(patched, k) == Pokeable(space, k);
    }
    assert lhs.words == rhs.words;
  }

  /** The restore property: patching distinct addresses from a clean record
      and running the deferred restore leaves memory as it was. */
  lemma RestoreUndoesPatch(space: AddressSpace, addrs: seq<u32>, trap: Word)
    requires Distinct(addrs)
    ensures var r := Patch(space, map[], addrs, trap);
      Restored(r.space, r.saved) == space
  {
    RestoreAfterPatch(space, map[], addrs, trap);
    assert Restored(space, map[]).words == space.words;
  }

  /** When the same address is a candidate twice (a branch to the next
      instruction), the second peek reads the trap and records it as the
      original, so the restore leaves the trap in memory. */
  lemma DuplicateCandidateKeepsTrap(space: AddressSpace, a: u32, trap: Word)
    requires Pokeable(space, a) && space.words[a] != trap
    ensures var r := Patch(space, map[], [a, a], trap);
      r.err == Nil && Restored(r.space, r.saved).words[a] == trap != space.words[a]
  {
    var s1 := space.(words := space.words[a := trap]);
    assert Patch(space, map[], [a, a], trap) == Patch(s1, map[a := space.words[a]], [a], trap);
    assert Patch(s1, map[a := space.words[a]], [a], trap) == Patch(s1, map[a := trap], [], trap);
  }

  /** Restoring twice is the same as restoring once. */
  lemma RestoreIdempotent(space: AddressSpace, saved: map<u32, Word>)
    ensures Restored(Restored(space, saved), saved) == Restored(space, saved)
  {
    assert Restored(Restored(space, saved), saved).words == Restored(space, saved).words;
  }

  /** How many candidates, from the front of the list, can be peeked and
      poked: the patch loop stops at the first one that cannot. */
  function PokeablePrefix(space: AddressSpace, addrs: seq<u32>): (k: nat)
    ensures k <= |addrs|
    ensures forall i :: 0 <= i < k ==> Pokeable(space, addrs[i])
    ensures k < |addrs| ==> !Pokeable(space, addrs[k])
  {
    if addrs == [] || !Pokeable(space, addrs[0]) then 0
    else
      var k := PokeablePrefix(space, addrs[1..]);
      assert forall i :: 0 <= i < k ==> addrs[1..][i] == addrs[i + 1];
      1 + k
  }

  /** Only liveness, the mapped words and the refusals decide the prefix. */
  lemma {:induction false} PokeablePrefixSame(s1: AddressSpace, s2: AddressSpace, addrs: seq<u32>)
    requires forall x :: Pokeable(s1, x) == Pokeable(s2, x)
    ensures PokeablePrefix(s1, addrs) == PokeablePrefix(s2, addrs)
    decreases |addrs|
  {
    if addrs != [] {
      PokeablePrefixSame(s1, s2, addrs[1..]);
    }
  }

  /** A non-empty prefix holds its head and the shorter prefix of the tail. */
  lemma PrefixStep(addrs: seq<u32>, k: nat)
    requires 1 <= k <= |addrs|
    ensures forall x :: x in addrs[..k] <==> x == addrs[0] || x in addrs[1..][..k - 1]
  {
    assert addrs[..k] == [addrs[0]] + addrs[1..][..k - 1];
  }

  /** The patch loop goes through the candidates in list order and stops at
      the first one it cannot peek or poke, k: that address's error is the
      result and exactly the first k addresses are recorded. */
  lemma {:induction false} PatchStopsAtFirstFailure(space: AddressSpace, saved: map<u32, Word>, addrs: seq<u32>, trap: Word)
    ensures var r, k := Patch(space, saved, addrs, trap), PokeablePrefix(space, addrs);
      && (k < |addrs| ==> r.err == (if space.alive then Errno(EIO) else Errno(ESRCH)))
      && forall x :: x in r.saved <==> x in saved || x in addrs[..k]
    decreases |addrs|
  {
    var k := PokeablePrefix(space, addrs);
    if addrs != [] && Pokeable(space, addrs[0]) {
      var a := addrs[0];
      var patched := space.(words := space.words[a := trap]);
      PatchUnfold(space, saved, addrs, trap);
      PatchStopsAtFirstFailure(patched, saved[a := space.words[a]], addrs[1..], trap);
      PrefixStep(addrs, k);
    }
  }

  /** One round of the patch loop, when the head can be poked. */
  lemma PatchUnfold(space: AddressSpace, saved: map<u32, Word>, addrs: seq<u32>, trap: Word)
    requires addrs != [] && Pokeable(space, addrs[0])
    ensures var patched := space.(words := space.words[addrs[0] := trap]);
      && Patch(space, saved, addrs, trap) == Patch(patched, saved[addrs[0] := space.words[addrs[0]]], addrs[1..], trap)
      && (forall x :: Pokeable(patched, x) == Pokeable(space, x))
      && PokeablePrefix(space, addrs) == 1 + PokeablePrefix(patched, addrs[1..])
  {
    var patched := space.(words := space.words[addrs[0] := trap]);
    PokeablePrefixSame(patched, space, addrs[1..]);
  }

  /** The patch loop writes the trap into the first k candidates, the ones
      before the first failure. */
  lemma {:induction false} PatchWritesPrefix(space: AddressSpace, saved: map<u32, Word>, addrs: seq<u32>, trap: Word)
    ensures var r, k := Patch(space, saved, addrs, trap), PokeablePrefix(space, addrs);
      forall i :: 0 <= i < k ==> r.space.words[addrs[i]] == trap
    decreases |addrs|
  {
    if addrs != [] && Pokeable(space, addrs[0]) {
      var a, rest := addrs[0], addrs[1..];
      var patched := space.(words := space.words[a := trap]);
      PatchUnfold(space, saved, addrs, trap);
      PatchWritesPrefix(patched, saved[a := space.words[a]], rest, trap);
      var r, k := Patch(space, saved, addrs, trap), PokeablePrefix(space, addrs);
      assert r.space.words[a] == trap by {
        if a in rest[..k - 1] {
          var j :| 0 <= j < k - 1 && rest[..k - 1][j] == a;
          assert rest[j] == a;
        } else {
          PatchKeepsOthers(patched, saved[a := space.words[a]], rest, trap);
        }
      }
      forall i | 1 <= i < k ensures r.space.words[addrs[i]] == trap {
        assert addrs[i] == rest[i - 1];
      }
    }
  }

  /** No word outside the first k candidates changes. */
  lemma {:induction false} PatchKeepsOthers(space: AddressSpace, saved: map<u32, Word>, addrs: seq<u32>, trap: Word)
    ensures var r, k := Patch(space, saved, addrs, trap), PokeablePrefix(space, addrs);
      forall a :: a in space.words && a !in addrs[..k] ==> r.space.words[a] == space.words[a]
    decreases |addrs|
  {
    if addrs != [] && Pokeable(space, addrs[0]) {
      var a, rest := addrs[0], addrs[1..];
      var patched := space.(words := space.words[a := trap]);
      PatchUnfold(space, saved, addrs, trap);
      PatchKeepsOthers(patched, saved[a := space.words[a]], rest, trap);
      var r, k := Patch(space, saved, addrs, trap), PokeablePrefix(space, addrs);
      PrefixStep(addrs, k);
      forall x | x in space.words && x !in addrs[..k] ensures r.space.words[x] == space.words[x] {
        assert patched.words[x] == space.words[x];
      }
    }
  }

  /** Patching distinct candidates that were not recorded before records
      each one's word as it was before the loop, and keeps earlier records. */
  lemma {:induction false} PatchRecordsOriginals(space: AddressSpace, saved: map<u32, Word>, addrs: seq<u32>, trap: Word)
    requires Distinct(addrs)
    requires forall i :: 0 <= i < |addrs| ==> addrs[i] !in saved
    ensures var r := Patch(space, saved, addrs, trap);
      forall a :: a in r.saved ==> r.saved[a] == if a in saved then saved[a] else space.words[a]
    decreases |addrs|
  {
    if addrs != [] && Pokeable(space, addrs[0]) {
      var a := addrs[0];
      var patched := space.(words := space.words[a := trap]);
      var rest := addrs[1..];
      var saved' := saved[a := space.words[a]];
      assert Patch(space, saved, addrs, trap) == Patch(patched, saved', rest, trap);
      assert forall i :: 0 <= i < |rest| ==> rest[i] == addrs[i + 1];
      assert Distinct(rest);
      PatchRecordsOriginals(patched, saved', rest, trap);
      var r := Patch(patched, saved', rest, trap);
      forall x | x in r.saved && x !in saved'
        ensures x != a && patched.words[x] == space.words[x]
      {
        var i :| 0 <= i < |rest| && rest[i] == x;
        assert x == addrs[i + 1];
      }
    }
  }

  /** The memory after the continued thread has run until it stopped again:
      `stores` are the words the thread itself wrote meanwhile. Only mapped
      words can be written. */
  function Execute(space: AddressSpace, stores: map<u32, Word>): (r: AddressSpace)
    ensures r.words.Keys == space.words.Keys
    ensures r.alive == space.alive && r.pokeDenied == space.pokeDenied
    ensures forall a :: a in space.words ==> r.words[a] == if a in stores then stores[a] else space.words[a]
  {
    space.(words := map a | a in space.words :: if a in stores then stores[a] else space.words[a])
  }

  /** The memory single-stepping leaves behind: the traps planted, the
      thread's own stores if it was continued, the process gone if the
      leader exited meanwhile, and then the deferred restore. The restore
      pokes go through the stepped thread, so they take effect only when
      that thread is `held`, still in a ptrace-stop; otherwise each of them
      fails with ESRCH and the memory stays as the thread left it. */
  function StepSpace(space: AddressSpace, addrs: seq<u32>, trap: Word, ran: bool, stores: map<u32, Word>,
                     exited: bool, held: bool): (r: AddressSpace)
    ensures r.words.Keys == space.words.Keys
    ensures r.alive == (space.alive && !exited)
  {
    var p := Patch(space, map[], addrs, trap);
    var run := if ran then Execute(p.space, stores) else p.space;
    var after := if exited then run.(alive := false) else run;
    if held then Restored(after, p.saved) else after
  }

  /** Words that are not trap addresses end up as the thread left them:
      written by it if it ran, as before otherwise. */
  lemma StepSpaceOutsideTraps(space: AddressSpace, addrs: seq<u32>, trap: Word, ran: bool, stores: map<u32, Word>,
                              exited: bool, held: bool)
    ensures var r := StepSpace(space, addrs, trap, ran, stores, exited, held);
      forall a :: a in space.words && a !in addrs ==>
        r.words[a] == if ran && a in stores then stores[a] else space.words[a]
  {
  }

  /** While the process lives and the stepped thread is still stopped, every
      distinct trap address gets back the word it held before the step,
      whatever the thread wrote elsewhere. */
  lemma StepSpaceRestoresTraps(space: AddressSpace, addrs: seq<u32>, trap: Word, ran: bool, stores: map<u32, Word>,
                               exited: bool, held: bool)
    requires Distinct(addrs)
    requires ran ==> Patch(space, map[], addrs, trap).err == Nil
    ensures var r := StepSpace(space, addrs, trap, ran, stores, exited, held);
      !exited && held ==> forall a :: a in space.words && a in addrs ==> r.words[a] == space.words[a]
  {
    var p := Patch(space, map[], addrs, trap);
    if !exited && held {
      if ran {
        PatchRecordsOriginals(space, map[], addrs, trap);
        var run := Execute(p.space, stores);
        forall a | a in space.words && a in addrs
          ensures StepSpace(space, addrs, trap, ran, stores, exited, held).words[a] == space.words[a]
        {
          var i :| 0 <= i < |addrs| && addrs[i] == a;
          assert a in p.saved && Pokeable(run, a);
        }
      } else {
        RestoreUndoesPatch(space, addrs, trap);
      }
    }
  }

  /** When the stepped thread is no longer stopped, nothing is restored:
      every trap that was planted stays in memory unless the thread itself
      overwrote it. */
  lemma StepSpaceLeavesTraps(space: AddressSpace, addrs: seq<u32>, trap: Word, ran: bool, stores: map<u32, Word>,
                             exited: bool, held: bool)
    ensures var r, k := StepSpace(space, addrs, trap, ran, stores, exited, held), PokeablePrefix(space, addrs);
      !held ==> forall i :: 0 <= i < k ==>
        r.words[addrs[i]] == if ran && addrs[i] in stores then stores[addrs[i]] else trap
  {
    PatchWritesPrefix(space, map[], addrs, trap);
  }

  /** A wait status as sys.WaitStatus reports it. */
  datatype Status = Exited(code: int) | StoppedBy(sig: int) | Signaled(sig: int) | Continued

  /** A non-nil error. */
  type Failure = e: Error | e != Nil witness Errno(EIO)

  /** What one call of wait returns: the pid and a status that may be nil, or
      an error. */
  datatype WaitResult = Waited(wpid: int, status: Option<Status>) | WaitFailed(err: Failure)

  /** What the single-step wait loop does with one wait result. */
  datatype WaitAction =
    | KeepWaiting
    | Fail(e: Error)
    | LeaderExited(status: int)
    | ThreadGone(tid: int)
    | StepDone

  predicate ExitedOrNil(s: Option<Status>)
  {
    s.None? || s.value.Exited?
  }

  /** One turn of the wait loop of thread `tid` in process `pid`. A nil or
      exited status ends the loop: for the leader pid with the process-exited
      error, for any other pid by forgetting that thread. Any other status
      ends it only when it is the stepped thread's. */
  function Classify(w: WaitResult, pid: int, tid: int): (a: WaitAction)
    ensures a.Fail? <==> w.WaitFailed?
    ensures a.Fail? ==> a.e == w.err && a.e != Nil
    ensures a.LeaderExited? <==> w.Waited? && ExitedOrNil(w.status) && w.wpid == pid
    ensures a.LeaderExited? ==> a.status == (if w.status.None? then 0 else w.status.value.code)
    ensures a.ThreadGone? <==> w.Waited? && ExitedOrNil(w.status) && w.wpid != pid
    ensures a.ThreadGone? ==> a.tid == w.wpid
    ensures a.StepDone? <==> w.Waited? && !ExitedOrNil(w.status) && w.wpid == tid
    ensures a.KeepWaiting? <==> w.Waited? && !ExitedOrNil(w.status) && w.wpid != tid
  {
    match w
    case WaitFailed(e) => Fail(e)
    case Waited(wpid, status) =>
      if ExitedOrNil(status) then
        if wpid == pid then LeaderExited(if status.Some? then status.value.code else 0)
        else ThreadGone(wpid)
      else if wpid == tid then StepDone
      else KeepWaiting
  }

  /** A thread killed by a signal is not "exited": when it is another thread,
      the loop goes on waiting, even when it is the leader; when it is the
      stepped thread, leader or not, the step ends. */
  lemma SignaledLeaderKeepsWaiting(pid: int, tid: int, sig: int)
    requires pid != tid
    ensures Classify(Waited(pid, Some(Signaled(sig))), pid, tid) == KeepWaiting
    ensures Classify(Waited(tid, Some(Signaled(sig))), pid, tid) == StepDone
    ensures Classify(Waited(pid, Some(Signaled(sig))), pid, pid) == StepDone
  {
  }

  /** Some wait result in `events` ends the loop. */
  predicate Settles(events: seq<WaitResult>, pid: int, tid: int)
  {
    exists i :: 0 <= i < |events| && !Classify(events[i], pid, tid).KeepWaiting?
  }

  /** The index of the wait result that ends the loop. */
  function FirstDecisive(events: seq<WaitResult>, pid: int, tid: int): (i: nat)
    requires Settles(events, pid, tid)
    ensures i < |events| && !Classify(events[i], pid, tid).KeepWaiting?
    ensures forall j :: 0 <= j < i ==> Classify(events[j], pid, tid).KeepWaiting?
  {
    if !Classify(events[0], pid, tid).KeepWaiting? then 0
    else
      assert Settles(events[1..], pid, tid) by {
        var i :| 0 <= i < |events| && !Classify(events[i], pid, tid).KeepWaiting?;
        assert events[1..][i - 1] == events[i];
      }
      var k := FirstDecisive(events[1..], pid, tid);
      assert events[1..][k] == events[k + 1];
      assert forall j :: 1 <= j < k + 1 ==> events[j] == events[1..][j - 1];
      k + 1
  }

  /** Whether the result that ends the wait loop leaves the stepped thread in
      a ptrace-stop: a stop status of that thread. A signal death or a
      continued status ends the loop as well, but leaves no stopped thread
      to poke through. */
  predicate StopsThread(events: seq<WaitResult>, pid: int, tid: int)
    requires Settles(events, pid, tid)
  {
    var w := events[FirstDecisive(events, pid, tid)];
    w.Waited? && w.wpid == tid && w.status.Some? && w.status.value.StoppedBy?
  }

  /** Only a step that is done can leave the thread stopped; of the steps
      that are done, exactly those ending in a stop status do. */
  lemma StopsThreadIsStepDone(events: seq<WaitResult>, pid: int, tid: int)
    requires Settles(events, pid, tid)
    ensures StopsThread(events, pid, tid) ==> Classify(events[FirstDecisive(events, pid, tid)], pid, tid).StepDone?
    ensures Classify(events[FirstDecisive(events, pid, tid)], pid, tid).StepDone? ==>
      (StopsThread(events, pid, tid) <==> events[FirstDecisive(events, pid, tid)].status.value.StoppedBy?)
  {
  }
}
