/** write and writev: what reaches the host, and what the wait emulation is told afterwards. */
module IoHooks {
  import opened EpollSet

  function Sum(lens: seq<nat>): (n: nat) {
    if lens == [] then 0 else Sum(lens[..|lens| - 1]) + lens[|lens| - 1]
  }

  lemma {:induction false} SumCovers(lens: seq<nat>, i: nat)
    requires i < |lens|
    ensures lens[i] <= Sum(lens)
  {
    if i < |lens| - 1 { SumCovers(lens[..|lens| - 1], i); }
  }

  /** What the calling thread is told to do after a write: wake the paired reader, watch for room. */
  datatype Hooks = Hooks(hintPair: bool, rearmOut: bool)

  method WriteResult(r: int, want: nat, again: bool) returns (h: Hooks)
    ensures h == Hooks(r > 0, WriteRearms(r, want, again))
    ensures h == Hooks(r > 0, if r > 0 then r < want else r == -1 && again)
  {
    h := Hooks(false, false);
    if r > 0 {
      h := h.(hintPair := true);
      if r < want { h := h.(rearmOut := true); }
    } else if r == -1 && again {
      h := h.(rearmOut := true);
    }
  }

  /** How read, readv and recv end: data and EAGAIN watch for more, end of file and other errors do not. */
  method ReadResult(r: int, again: bool) returns (rearmIn: bool)
    ensures r > 0 ==> rearmIn
    ensures r == 0 || r < -1 ==> !rearmIn
    ensures r == -1 ==> (rearmIn <==> again)
    ensures rearmIn <==> ReadRearms(r, again)
  {
    rearmIn := false;
    if r > 0 || (r == -1 && again) { rearmIn := true; }
  }

  /** writev. Behind the gate only the first slice that is not empty is written, clamped; the
      length asked for stays the sum of all slices, so whatever is left over arms the write side.
      host is what the host answers to a write of each length: a count, or -1 and whether for want
      of room. */
  method Writev(lens: seq<nat>, wantsEagain: bool, gated: bool, clamp: nat, host: nat -> (int, bool)) returns (r: int, again: bool, h: Hooks)
    requires forall n: nat {:trigger host(n)} :: -1 <= host(n).0 <= n
    ensures -1 <= r <= Sum(lens)
    ensures wantsEagain ==> r == -1 && again
    ensures !wantsEagain && (!gated || Sum(lens) == 0) ==> (r, again) == host(Sum(lens))
    ensures !wantsEagain && gated && Sum(lens) > 0 ==>
              exists i {:trigger lens[i]} ::
                && 0 <= i < |lens| && lens[i] > 0 && Sum(lens[..i]) == 0
                && (r, again) == host(if clamp < lens[i] then clamp else lens[i])
    ensures r == -1 ==> h == Hooks(false, again)
    ensures 0 < r < Sum(lens) ==> h == Hooks(true, true)
    ensures r == Sum(lens) > 0 ==> h == Hooks(true, false)
    ensures r == 0 ==> h == Hooks(false, false)
  {
    if wantsEagain {
      h := WriteResult(-1, 1, true);
      return -1, true, h;
    }
    var total := 0;
    for i := 0 to |lens|
      invariant total == Sum(lens[..i])
    {
      assert lens[..i + 1][..i] == lens[..i];
      total := total + lens[i];
    }
    assert lens[..|lens|] == lens;
    if |lens| > 0 && gated {
      for i := 0 to |lens|
        invariant Sum(lens[..i]) == 0
      {
        if lens[i] > 0 {
          SumCovers(lens, i);
          var answer := host(if clamp < lens[i] then clamp else lens[i]);
          r, again := answer.0, answer.1;
          h := WriteResult(r, total, again);
          return;
        }
        assert lens[..i + 1][..i] == lens[..i];
      }
    }
    var answer := host(total);
    r, again := answer.0, answer.1;
    h := WriteResult(r, total, again);
  }
}
