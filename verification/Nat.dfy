/** The refcounted source-NAT entries of one proxy, and the kernel map they are installed in. */
module Nat {
  import opened Wrappers

  datatype Entry = Entry(internalIp: string, refCount: nat)

  /** The manager's table and the kernel's nat_map. */
  datatype State = State(refs: map<string, Entry>, kernel: map<string, string>)

  // ---- element runners ----

  /** Adding an element: a fault changes nothing, and a key the kernel already has is an error unless its value is the same. That
      holds of both runners: the error text is looked for in the spelling of the nft program, which the native runner's
      system error does not have. */
  function ElementAdd(kernel: map<string, string>, realIp: string, internalIp: string, fault: bool): (map<string, string>, bool) {
    if fault then (kernel, false)
    else if realIp in kernel then (kernel, kernel[realIp] == internalIp)
    else (kernel[realIp := internalIp], true)
  }

  /** Deleting an element: a fault changes nothing. A key the kernel does not have is ignored when the nft program reports it, and an
      error when the native runner does, for the same reason. */
  function ElementDelete(kernel: map<string, string>, native: bool, realIp: string, fault: bool): (map<string, string>, bool) {
    if fault then (kernel, false)
    else if realIp !in kernel then (kernel, !native)
    else (kernel - {realIp}, true)
  }

  // ---- the manager ----

  function Add(s: State, realIp: string, internalIp: string, fault: bool): (State, bool) {
    if realIp in s.refs then
      var entry := s.refs[realIp];
      if entry.internalIp != internalIp then (s, false)
      else (s.(refs := s.refs[realIp := entry.(refCount := entry.refCount + 1)]), true)
    else
      var (kernel, ok) := ElementAdd(s.kernel, realIp, internalIp, fault);
      if !ok then (s.(kernel := kernel), false)
      else (State(s.refs[realIp := Entry(internalIp, 1)], kernel), true)
  }

  function Delete(s: State, native: bool, realIp: string, fault: bool): (State, bool) {
    if realIp !in s.refs then (s, true)
    else
      var entry := s.refs[realIp];
      if entry.refCount > 1 then (s.(refs := s.refs[realIp := entry.(refCount := entry.refCount - 1)]), true)
      else
        var (kernel, ok) := ElementDelete(s.kernel, native, realIp, fault);
        if !ok then (s.(kernel := kernel), false)
        else (State(s.refs - {realIp}, kernel), true)
  }

  class NATManager {
    const native: bool
    var refs: map<string, Entry>
    var kernel: map<string, string>

    function Contents(): State
      reads this
    {
      State(refs, kernel)
    }

    /** The kernel may hold entries of an earlier process. */
    constructor (native: bool, kernel: map<string, string>)
      ensures this.native == native && Contents() == State(map[], kernel)
    {
      this.native, refs, this.kernel := native, map[], kernel;
    }

    method AddElement(realIp: string, internalIp: string, fault: bool) returns (ok: bool)
      modifies this`kernel
      ensures (kernel, ok) == ElementAdd(old(kernel), realIp, internalIp, fault)
    {
      if fault {
        return false;
      }
      if realIp in kernel {
        return kernel[realIp] == internalIp;
      }
      kernel := kernel[realIp := internalIp];
      ok := true;
    }

    method DeleteElement(realIp: string, fault: bool) returns (ok: bool)
      modifies this`kernel
      ensures (kernel, ok) == ElementDelete(old(kernel), native, realIp, fault)
    {
      if fault {
        return false;
      }
      if realIp !in kernel {
        return !native;
      }
      kernel := kernel - {realIp};
      ok := true;
    }

    method AddMapping(realIp: string, internalIp: string, fault: bool) returns (ok: bool)
      modifies this
      ensures (Contents(), ok) == Add(old(Contents()), realIp, internalIp, fault)
    {
      if realIp in refs {
        var entry := refs[realIp];
        if entry.internalIp != internalIp {
          return false;
        }
        refs := refs[realIp := Entry(entry.internalIp, entry.refCount + 1)];
        return true;
      }
      ok := AddElement(realIp, internalIp, fault);
      if ok {
        refs := refs[realIp := Entry(internalIp, 1)];
      }
    }

    method DeleteMapping(realIp: string, fault: bool) returns (ok: bool)
      modifies this
      ensures (Contents(), ok) == Delete(old(Contents()), native, realIp, fault)
    {
      if realIp !in refs {
        return true;
      }
      var entry := refs[realIp];
      if entry.refCount > 1 {
        refs := refs[realIp := Entry(entry.internalIp, entry.refCount - 1)];
        return true;
      }
      ok := DeleteElement(realIp, fault);
      if ok {
        refs := refs - {realIp};
      }
    }
  }

  // ---- what the manager keeps, starting from any kernel map ----

  /** Every table entry is in use and installed with its address. */
  ghost predicate Installed(s: State) {
    forall r :: r in s.refs ==> s.refs[r].refCount >= 1 && r in s.kernel && s.kernel[r] == s.refs[r].internalIp
  }

  /** The kernel entries that are not the table's: left over from an earlier process. */
  function Leftovers(s: State): map<string, string> {
    map r | r in s.kernel && r !in s.refs :: s.kernel[r]
  }

  function Projection(refs: map<string, Entry>): map<string, string> {
    map r | r in refs :: refs[r].internalIp
  }

  /** The kernel map is the projection of the table and the leftovers; without leftovers it is the projection. */
  lemma InstalledIsProjection(s: State)
    requires Installed(s)
    ensures s.kernel == Leftovers(s) + Projection(s.refs)
    ensures Leftovers(s) == map[] ==> s.kernel == Projection(s.refs)
  {
    if Leftovers(s) == map[] {
      forall r | r in s.kernel ensures r in s.refs {
        assert r !in Leftovers(s);
      }
    }
  }

  function RefCount(s: State, realIp: string): nat {
    if realIp in s.refs then s.refs[realIp].refCount else 0
  }

  /** An Add succeeds exactly when the entry in the table agrees, or there is none, the kernel does not fail and any leftover
      has the same address. Then the given address is installed, one reference is counted, and a leftover of that player is
      taken over; otherwise nothing changes. */
  lemma AddKeepsInstalled(s: State, realIp: string, internalIp: string, fault: bool)
    requires Installed(s)
    ensures var (after, ok) := Add(s, realIp, internalIp, fault);
            && Installed(after)
            && (ok <==> if realIp in s.refs then s.refs[realIp].internalIp == internalIp
                        else !fault && (realIp in s.kernel ==> s.kernel[realIp] == internalIp))
            && (!ok ==> after == s)
            && (ok ==> realIp in after.refs && after.refs[realIp].internalIp == internalIp && after.kernel == s.kernel[realIp := internalIp])
            && RefCount(after, realIp) == RefCount(s, realIp) + (if ok then 1 else 0)
            && Leftovers(after) == (if ok then Leftovers(s) - {realIp} else Leftovers(s))
            && forall r :: r != realIp ==> RefCount(after, r) == RefCount(s, r)
  {
    if realIp in s.kernel {
      assert s.kernel[realIp := s.kernel[realIp]] == s.kernel;
    }
  }

  /** A Delete fails exactly when the kernel fails on the last reference, and then changes nothing; the kernel entry goes exactly
      with the last reference, and leftovers stay. */
  lemma DeleteKeepsInstalled(s: State, native: bool, realIp: string, fault: bool)
    requires Installed(s)
    ensures var (after, ok) := Delete(s, native, realIp, fault);
            && Installed(after)
            && (!ok <==> RefCount(s, realIp) == 1 && fault)
            && (!ok ==> after == s)
            && after.kernel == (if ok && RefCount(s, realIp) == 1 then s.kernel - {realIp} else s.kernel)
            && RefCount(after, realIp) == (if ok && realIp in s.refs then RefCount(s, realIp) - 1 else RefCount(s, realIp))
            && Leftovers(after) == Leftovers(s)
            && forall r :: r != realIp ==> RefCount(after, r) == RefCount(s, r)
  {
    if realIp !in s.refs {
      assert RefCount(s, realIp) == 0;
    } else {
      assert s.refs[realIp].refCount >= 1;
    }
  }

  /** A delete that succeeds undoes the add before it, except that a leftover the add took over is gone. */
  lemma DeleteUndoesAdd(s: State, native: bool, realIp: string, internalIp: string, fault: bool)
    requires Installed(s) && Add(s, realIp, internalIp, fault).1
    ensures Delete(Add(s, realIp, internalIp, fault).0, native, realIp, false)
         == (if realIp in s.refs then s else s.(kernel := s.kernel - {realIp}), true)
  {
    var after := Add(s, realIp, internalIp, fault).0;
    if realIp in s.refs {
      var entry := s.refs[realIp];
      assert after.refs[realIp := entry.(refCount := entry.refCount)] == s.refs;
    } else {
      assert after.refs - {realIp} == s.refs && after.kernel - {realIp} == s.kernel - {realIp};
    }
  }

  /** A last reference whose kernel entry somebody else has removed: the nft program's reply is ignored and the reference goes, the
      native runner's is not and it stays. */
  lemma DeleteOfMissing(s: State, native: bool, realIp: string, fault: bool)
    requires realIp in s.refs && s.refs[realIp].refCount == 1 && realIp !in s.kernel
    ensures Delete(s, native, realIp, fault) == if native || fault then (s, false) else (s.(refs := s.refs - {realIp}), true)
  {
  }
}
