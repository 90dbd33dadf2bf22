/**
 Descriptor chains as linked lists in a table (VIRTIO 1.2, section 2.7.5): what a
 well-formed chain is, with no bound on its length, and what a bounded walk finds.
 */
module DescriptorChains {
  import opened Results
  import opened Bytes
  import opened Ram

  const VRING_DESC_F_NEXT: u16 := 1

  datatype Descriptor = Descriptor(addr: u64, len: u32, flags: u16, next: u16) {
    /** NEXT is bit 0 of the flags. */
    predicate HasNext() { flags % 2 == VRING_DESC_F_NEXT }
  }

  datatype WalkError =
    | Memory(cause: RamError)
    | IndexOutOfRange(index: u16)
    | ChainTooLong

  /** Entry `i` is descriptor `i` of the table, or why it cannot be read. */
  type Table = seq<Result<Descriptor, RamError>>

  predicate Readable(t: Table, idx: u16) {
    idx < |t| && t[idx].Ok?
  }

  predicate Continues(t: Table, idx: u16) {
    Readable(t, idx) && t[idx].value.HasNext()
  }

  predicate Ends(t: Table, idx: u16) {
    Readable(t, idx) && !t[idx].value.HasNext()
  }

  /** Following NEXT from `head` visits exactly the indices of `path`, and then leads to `end`. */
  predicate Linked(t: Table, head: u16, path: seq<u16>, end: u16)
    decreases |path|
  {
    if path == [] then head == end
    else path[0] == head && Continues(t, head) && Linked(t, t[head].value.next, path[1..], end)
  }

  /** A well-formed chain from `head`: NEXT links through `path`, then `last`, which has no NEXT. */
  predicate IsChain(t: Table, head: u16, path: seq<u16>, last: u16) {
    Linked(t, head, path, last) && Ends(t, last)
  }

  ghost predicate HasChain(t: Table, head: u16) {
    exists path, last :: IsChain(t, head, path, last)
  }

  function Descriptors(t: Table, indices: seq<u16>): (ds: seq<Descriptor>)
    requires forall k :: 0 <= k < |indices| ==> Readable(t, indices[k])
    ensures |ds| == |indices|
  {
    seq(|indices|, k requires 0 <= k < |indices| =>
      assert Readable(t, indices[k]);
      t[indices[k]].value)
  }

  predicate Distinct(s: seq<u16>) {
    forall i, j :: 0 <= i < j < |s| ==> s[i] != s[j]
  }

  // ----- The bounded walk -----

  /** What at most `fuel` steps of the walk from `idx` answer. */
  function Walk(t: Table, idx: u16, fuel: nat): Result<seq<Descriptor>, WalkError>
    decreases fuel
  {
    if fuel == 0 then Err(ChainTooLong)
    else if idx >= |t| then Err(IndexOutOfRange(idx))
    else
      match t[idx]
      case Err(e) => Err(Memory(e))
      case Ok(d) =>
        if !d.HasNext() then Ok([d])
        else Prepend([d], Walk(t, d.next, fuel - 1))
  }

  function Prepend(ds: seq<Descriptor>, rest: Result<seq<Descriptor>, WalkError>): Result<seq<Descriptor>, WalkError> {
    match rest
    case Err(e) => Err(e)
    case Ok(more) => Ok(ds + more)
  }

  lemma WalkUnfolds(t: Table, idx: u16, fuel: nat, less: nat)
    requires fuel == less + 1
    ensures Walk(t, idx, fuel) ==
            if idx >= |t| then Err(IndexOutOfRange(idx))
            else if t[idx].Err? then Err(Memory(t[idx].error))
            else if !t[idx].value.HasNext() then Ok([t[idx].value])
            else Prepend([t[idx].value], Walk(t, t[idx].value.next, less))
  {
  }

  lemma PrependNone(rest: Result<seq<Descriptor>, WalkError>)
    ensures Prepend([], rest) == rest
  {
    if rest.Ok? {
      assert [] + rest.value == rest.value;
    }
  }

  lemma PrependMore(ds: seq<Descriptor>, d: Descriptor, rest: Result<seq<Descriptor>, WalkError>)
    ensures Prepend(ds + [d], rest) == Prepend(ds, Prepend([d], rest))
  {
    if rest.Ok? {
      assert ds + [d] + rest.value == ds + ([d] + rest.value);
    }
  }

  /** Walking along `path` costs one step an index and collects its descriptors. */
  lemma {:induction false} WalkAlong(t: Table, head: u16, path: seq<u16>, end: u16, fuel: nat)
    requires Linked(t, head, path, end) && |path| <= fuel
    ensures forall k :: 0 <= k < |path| ==> Readable(t, path[k])
    ensures Walk(t, head, fuel) == Prepend(Descriptors(t, path), Walk(t, end, fuel - |path|))
    decreases |path|
  {
    var rest := Walk(t, end, fuel - |path|);
    if path == [] {
      PrependNone(rest);
    } else {
      var d := t[head].value;
      WalkAlong(t, d.next, path[1..], end, fuel - 1);
      if rest.Ok? {
        assert Descriptors(t, path) + rest.value == [d] + (Descriptors(t, path[1..]) + rest.value);
      }
    }
  }

  /** The walk goes along links until it meets a reason to stop. */
  lemma {:induction false} WalkPath(t: Table, head: u16, fuel: nat) returns (path: seq<u16>, end: u16)
    ensures Linked(t, head, path, end) && |path| <= fuel
    ensures |path| == fuel || !Continues(t, end)
    decreases fuel
  {
    if fuel == 0 || !Continues(t, head) {
      return [], head;
    }
    var rest, e := WalkPath(t, t[head].value.next, fuel - 1);
    path, end := [head] + rest, e;
  }

  // ----- Determinism: at most one chain from a head, and it never repeats -----

  lemma {:induction false} LinkedSuffix(t: Table, head: u16, path: seq<u16>, end: u16, i: nat)
    requires Linked(t, head, path, end) && i < |path|
    ensures Continues(t, path[i]) && Linked(t, path[i], path[i..], end)
    decreases i
  {
    if i > 0 {
      LinkedSuffix(t, t[head].value.next, path[1..], end, i - 1);
      assert path[1..][i - 1..] == path[i..];
    }
  }

  /** Two walks from the same index that both end at descriptors without NEXT are the same walk. */
  lemma {:induction false} ChainUnique(t: Table, head: u16, p: seq<u16>, a: u16, q: seq<u16>, b: u16)
    requires IsChain(t, head, p, a) && IsChain(t, head, q, b)
    ensures p == q && a == b
    decreases |p|
  {
    if p != [] && q != [] {
      ChainUnique(t, t[head].value.next, p[1..], a, q[1..], b);
      assert p == [head] + p[1..] && q == [head] + q[1..];
    }
  }

  /** A chain visits no descriptor twice: acceptance implies acyclicity. */
  lemma ChainDistinct(t: Table, head: u16, path: seq<u16>, last: u16)
    requires IsChain(t, head, path, last)
    ensures Distinct(path + [last])
  {
    var s := path + [last];
    forall i, j | 0 <= i < j < |s|
      ensures s[i] != s[j]
    {
      LinkedSuffix(t, head, path, last, i);
      if j < |path| {
        LinkedSuffix(t, head, path, last, j);
        if s[i] == s[j] {
          ChainUnique(t, s[i], path[i..], last, path[j..], last);
        }
      }
    }
  }

  /** Pigeonhole: distinct indices below `n` are at most `n`, and if they are `n` they are all of them. */
  lemma {:induction false} DistinctBelow(s: seq<u16>, n: nat)
    requires Distinct(s) && forall k :: 0 <= k < |s| ==> s[k] < n
    ensures |s| <= n
    ensures |s| == n ==> forall x: u16 :: x < n ==> x in s
  {
    if s != [] {
      assert s[0] < n;
      if k :| 0 <= k < |s| && s[k] == n - 1 {
        var others := s[..k] + s[k + 1..];
        DistinctBelow(others, n - 1);
        assert forall x :: x in others ==> x in s;
      } else {
        DistinctBelow(s, n - 1);
      }
    }
  }

  lemma {:induction false} LinkedInRange(t: Table, head: u16, path: seq<u16>, end: u16)
    requires Linked(t, head, path, end)
    ensures forall k :: 0 <= k < |path| ==> Continues(t, path[k])
    decreases |path|
  {
    if path != [] {
      LinkedInRange(t, t[head].value.next, path[1..], end);
    }
  }

  /** The bound never bites: a chain, however long, fits in the table. */
  lemma ChainFits(t: Table, head: u16, path: seq<u16>, last: u16)
    requires IsChain(t, head, path, last)
    ensures |path| < |t|
  {
    ChainDistinct(t, head, path, last);
    LinkedInRange(t, head, path, last);
    DistinctBelow(path + [last], |t|);
  }

  // ----- The walk against the chains -----

  /** A chain is found, whole and in order, by a walk of as many steps as the table has entries. */
  lemma WalkFindsChain(t: Table, head: u16, path: seq<u16>, last: u16, fuel: nat)
    requires IsChain(t, head, path, last) && |t| <= fuel
    ensures forall k :: 0 <= k < |path| ==> Readable(t, path[k])
    ensures Walk(t, head, fuel) == Ok(Descriptors(t, path + [last]))
  {
    ChainFits(t, head, path, last);
    WalkAlong(t, head, path, last, fuel);
    assert Descriptors(t, path) + [t[last].value] == Descriptors(t, path + [last]);
  }

  /** Main result: the bounded walk answers a chain exactly when there is one. */
  lemma WalkIffChain(t: Table, head: u16, fuel: nat)
    requires |t| <= fuel
    ensures Walk(t, head, fuel).Ok? <==> HasChain(t, head)
  {
    if HasChain(t, head) {
      var path, last :| IsChain(t, head, path, last);
      WalkFindsChain(t, head, path, last, fuel);
    }
    if Walk(t, head, fuel).Ok? {
      var path, end := WalkPath(t, head, fuel);
      WalkAlong(t, head, path, end, fuel);
      assert IsChain(t, head, path, end);
    }
  }

  /**
   The full account of a walk of at most `fuel` steps: `WalkPath` says where it goes,
   and what it meets there decides the answer.
   */
  lemma WalkOutcome(t: Table, head: u16, path: seq<u16>, end: u16, fuel: nat)
    requires Linked(t, head, path, end) && |path| <= fuel && (|path| == fuel || !Continues(t, end))
    ensures forall k :: 0 <= k < |path| ==> Readable(t, path[k])
    ensures Walk(t, head, fuel) ==
            if |path| == fuel then Err(ChainTooLong)
            else if end >= |t| then Err(IndexOutOfRange(end))
            else if t[end].Err? then Err(Memory(t[end].error))
            else Ok(Descriptors(t, path + [end]))
  {
    WalkAlong(t, head, path, end, fuel);
    if Ends(t, end) {
      assert Descriptors(t, path) + [t[end].value] == Descriptors(t, path + [end]);
    }
  }

  /**
   "Longer than the queue size" is never said of a long chain: the walk has come back to
   an index it had visited, or has used every descriptor and been led out of the table.
   */
  lemma TooLongMeansCycleOrExit(t: Table, head: u16, path: seq<u16>, end: u16, fuel: nat)
    requires |t| <= fuel && |path| == fuel && Linked(t, head, path, end)
    ensures !HasChain(t, head)
    ensures || !Distinct(path + [end])
            || (|path| == |t| && end >= |t| && forall x: u16 :: x < |t| ==> x in path)
  {
    WalkOutcome(t, head, path, end, fuel);
    WalkIffChain(t, head, fuel);
    LinkedInRange(t, head, path, end);
    if Distinct(path + [end]) {
      var s := path + [end];
      assert forall i, j :: 0 <= i < j < |path| ==> s[i] == path[i] && s[j] == path[j];
      DistinctBelow(path, |t|);
      if end < |t| {
        DistinctBelow(path + [end], |t|);
      }
    }
  }

  /** Links from the head of a chain stay on the chain. */
  lemma {:induction false} LinkedOnChain(t: Table, head: u16, path: seq<u16>, end: u16, chain: seq<u16>, last: u16)
    requires Linked(t, head, path, end) && IsChain(t, head, chain, last)
    ensures path + [end] <= chain + [last]
    decreases |path|
  {
    if path != [] {
      var next := t[head].value.next;
      LinkedOnChain(t, next, path[1..], end, chain[1..], last);
      assert path + [end] == [head] + (path[1..] + [end]);
      assert chain + [last] == [head] + (chain[1..] + [last]);
    }
  }

  lemma DistinctPrefix(s: seq<u16>, whole: seq<u16>)
    requires s <= whole && Distinct(whole) && s != []
    ensures s[|s| - 1] !in s[..|s| - 1]
  {
    assert forall i :: 0 <= i < |s| ==> s[i] == whole[i];
  }

  /** Links that come back to an index already visited mean there is no chain, so no walk accepts. */
  lemma CycleRejected(t: Table, head: u16, path: seq<u16>, end: u16, fuel: nat)
    requires Linked(t, head, path, end) && end in path && |t| <= fuel
    ensures !HasChain(t, head) && Walk(t, head, fuel).Err?
  {
    if chain, last :| IsChain(t, head, chain, last) {
      LinkedOnChain(t, head, path, end, chain, last);
      ChainDistinct(t, head, chain, last);
      assert (path + [end])[..|path|] == path;
      DistinctPrefix(path + [end], chain + [last]);
    }
    WalkIffChain(t, head, fuel);
  }
}
