/**
 * What random insertion of directed streams keeps: streams whole and apart, the base list in order, its last
 * instruction last.
 */
module StreamAssembly {
  import opened InstrStream
  import opened BranchTargets

  /** Where an instruction that stood at `f` stands once `len` instructions have gone in at `k`. */
  function Shifted(f: nat, k: nat, len: nat): nat {
    if k <= f then f + len else f
  }

  /** Where stream `q` starts after `n` insertions. */
  ghost function StreamStart(streams: seq<seq<Instr>>, ks: seq<nat>, n: nat, q: nat): nat
    requires q < n <= |streams| && n <= |ks|
  {
    if q == n - 1 then ks[n - 1]
    else Shifted(StreamStart(streams, ks, n - 1, q), ks[n - 1], |streams[n - 1]|)
  }

  /** Where base instruction `i` stands after `n` insertions. */
  ghost function BaseIndex(streams: seq<seq<Instr>>, ks: seq<nat>, n: nat, i: nat): nat
    requires n <= |streams| && n <= |ks|
  {
    if n == 0 then i else Shifted(BaseIndex(streams, ks, n - 1, i), ks[n - 1], |streams[n - 1]|)
  }

  ghost predicate AtomicStreams(streams: seq<seq<Instr>>) {
    forall q :: 0 <= q < |streams| ==> AllAtomic(streams[q])
  }

  ghost predicate LegalRun(base: seq<Instr>, streams: seq<seq<Instr>>, ks: seq<nat>, n: nat) {
    n <= |streams| && n <= |ks| && Legal(base, streams, ks, n) && AtomicStreams(streams)
  }

  lemma SpliceAt(list: seq<Instr>, s: seq<Instr>, k: nat, f: nat)
    requires k <= |list| && f < |list|
    ensures Shifted(f, k, |s|) < |Splice(list, s, k)|
    ensures Splice(list, s, k)[Shifted(f, k, |s|)] == list[f]
  {
  }

  lemma {:induction false} StreamElement(base: seq<Instr>, streams: seq<seq<Instr>>, ks: seq<nat>, n: nat, q: nat,
                                         j: nat)
    requires LegalRun(base, streams, ks, n) && q < n && j < |streams[q]|
    ensures StreamStart(streams, ks, n, q) + j < |Assembled(base, streams, ks, n)|
    ensures Assembled(base, streams, ks, n)[StreamStart(streams, ks, n, q) + j] == streams[q][j]
    decreases n, 1
  {
    if q == n - 1 {
    } else {
      var f := StreamStart(streams, ks, n - 1, q);
      StreamElement(base, streams, ks, n - 1, q, j);
      NeverInside(base, streams, ks, n, q);
      SpliceAt(Assembled(base, streams, ks, n - 1), streams[n - 1], ks[n - 1], f + j);
    }
  }

  /** An insertion point never falls strictly inside an earlier atomic stream. */
  lemma {:induction false} NeverInside(base: seq<Instr>, streams: seq<seq<Instr>>, ks: seq<nat>, n: nat, q: nat)
    requires LegalRun(base, streams, ks, n) && q < n - 1 && streams[q] != []
    ensures var f := StreamStart(streams, ks, n - 1, q);
            ks[n - 1] < f || ks[n - 1] >= f + |streams[q]|
    decreases n, 0
  {
    var f, k := StreamStart(streams, ks, n - 1, q), ks[n - 1];
    StreamElement(base, streams, ks, n - 1, q, 0);
    if f <= k < f + |streams[q]| {
      StreamElement(base, streams, ks, n - 1, q, k - f);
    }
  }

  /** Every inserted stream is still there, unbroken. */
  lemma StreamContiguous(base: seq<Instr>, streams: seq<seq<Instr>>, ks: seq<nat>, n: nat, q: nat)
    requires LegalRun(base, streams, ks, n) && q < n && streams[q] != []
    ensures var a, s := StreamStart(streams, ks, n, q), streams[q];
            a + |s| <= |Assembled(base, streams, ks, n)| && Assembled(base, streams, ks, n)[a..a + |s|] == s
  {
    var a, s, r := StreamStart(streams, ks, n, q), streams[q], Assembled(base, streams, ks, n);
    StreamElement(base, streams, ks, n, q, |s| - 1);
    forall j | 0 <= j < |s|
      ensures r[a..a + |s|][j] == s[j]
    {
      StreamElement(base, streams, ks, n, q, j);
    }
  }

  lemma {:induction false} BaseKept(base: seq<Instr>, streams: seq<seq<Instr>>, ks: seq<nat>, n: nat, i: nat)
    requires LegalRun(base, streams, ks, n) && i < |base|
    ensures BaseIndex(streams, ks, n, i) < |Assembled(base, streams, ks, n)|
    ensures Assembled(base, streams, ks, n)[BaseIndex(streams, ks, n, i)] == base[i]
  {
    if n == 0 {
    } else {
      BaseKept(base, streams, ks, n - 1, i);
      SpliceAt(Assembled(base, streams, ks, n - 1), streams[n - 1], ks[n - 1], BaseIndex(streams, ks, n - 1, i));
    }
  }

  lemma {:induction false} BaseOrderKept(streams: seq<seq<Instr>>, ks: seq<nat>, n: nat, i: nat, j: nat)
    requires n <= |streams| && n <= |ks| && i < j
    ensures BaseIndex(streams, ks, n, i) < BaseIndex(streams, ks, n, j)
  {
    if n == 0 {
    } else {
      BaseOrderKept(streams, ks, n - 1, i, j);
    }
  }

  lemma {:induction false} LastKept(base: seq<Instr>, streams: seq<seq<Instr>>, ks: seq<nat>, n: nat)
    requires LegalRun(base, streams, ks, n) && base != []
    ensures Assembled(base, streams, ks, n) != []
    ensures BaseIndex(streams, ks, n, |base| - 1) == |Assembled(base, streams, ks, n)| - 1
  {
    if n == 0 {
    } else {
      LastKept(base, streams, ks, n - 1);
    }
  }

  /** Whatever is drawn, streams inserted at different times never overlap. */
  lemma {:induction false} StreamsApart(base: seq<Instr>, streams: seq<seq<Instr>>, ks: seq<nat>, n: nat, p: nat,
                                        q: nat)
    requires LegalRun(base, streams, ks, n) && p < n && q < n && p != q && streams[p] != [] && streams[q] != []
    ensures var a, b := StreamStart(streams, ks, n, p), StreamStart(streams, ks, n, q);
            a + |streams[p]| <= b || b + |streams[q]| <= a
  {
    if p < n - 1 {
      NeverInside(base, streams, ks, n, p);
    }
    if q < n - 1 {
      NeverInside(base, streams, ks, n, q);
    }
    if p < n - 1 && q < n - 1 {
      StreamsApart(base, streams, ks, n - 1, p, q);
    }
  }

  /** Position `j` lies in stream `q`. */
  ghost predicate InStream(streams: seq<seq<Instr>>, ks: seq<nat>, n: nat, q: nat, j: nat)
    requires n <= |streams| && n <= |ks|
  {
    q < n && StreamStart(streams, ks, n, q) <= j < StreamStart(streams, ks, n, q) + |streams[q]|
  }

  ghost predicate InBase(base: seq<Instr>, streams: seq<seq<Instr>>, ks: seq<nat>, n: nat, i: nat, j: nat)
    requires n <= |streams| && n <= |ks|
  {
    i < |base| && BaseIndex(streams, ks, n, i) == j
  }

  /** Nothing else is in the list. */
  lemma {:induction false} Covered(base: seq<Instr>, streams: seq<seq<Instr>>, ks: seq<nat>, n: nat, j: nat)
    requires LegalRun(base, streams, ks, n) && j < |Assembled(base, streams, ks, n)|
    ensures (exists i: nat :: InBase(base, streams, ks, n, i, j)) || (exists q: nat :: InStream(streams, ks, n, q, j))
  {
    if n == 0 {
      assert InBase(base, streams, ks, n, j, j);
    } else {
      var k, t := ks[n - 1], streams[n - 1];
      if k <= j < k + |t| {
        assert InStream(streams, ks, n, n - 1, j);
      } else {
        var f, m := if j < k then j else j - |t|, n - 1;
        Covered(base, streams, ks, m, f);
        if i: nat :| InBase(base, streams, ks, m, i, f) {
          assert InBase(base, streams, ks, n, i, j);
        } else {
          var q: nat :| InStream(streams, ks, m, q, f);
          NeverInside(base, streams, ks, n, q);
          assert InStream(streams, ks, n, q, j);
        }
      }
    }
  }
}
