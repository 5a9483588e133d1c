/** Value updates and ATT requests: the effective MTU of an update, the per-characteristic
    value history (most recent first, never trimmed), what a read is answered with and the
    buffer a write batch assembles. */
module ValueEngine {
  import opened Gatt

  type History = map<CharRef, seq<Bytes>>

  /** The payload limit used when no central is targeted. */
  const DefaultMtu: nat := 512

  /** The smallest maximum update length among `centrals`. */
  function MinUpdateLength(centrals: seq<Central>): (m: nat)
    requires |centrals| > 0
    ensures exists i :: 0 <= i < |centrals| && m == centrals[i].maximumUpdateValueLength
    ensures forall i :: 0 <= i < |centrals| ==> m <= centrals[i].maximumUpdateValueLength
  {
    if |centrals| == 1 then centrals[0].maximumUpdateValueLength
    else
      var rest := MinUpdateLength(centrals[1..]);
      assert forall i :: 1 <= i < |centrals| ==> centrals[1..][i - 1] == centrals[i];
      if centrals[0].maximumUpdateValueLength <= rest then centrals[0].maximumUpdateValueLength else rest
  }

  /** The payload limit of an update: the default with no (or no listed) target centrals,
      otherwise the smallest limit among the targets. */
  function EffectiveMtu(centrals: Option<seq<Central>>): (m: nat)
    ensures (centrals.None? || centrals.value == []) ==> m == DefaultMtu
    ensures centrals.Some? && centrals.value != [] ==>
      && (exists i :: 0 <= i < |centrals.value| && m == centrals.value[i].maximumUpdateValueLength)
      && (forall i :: 0 <= i < |centrals.value| ==> m <= centrals.value[i].maximumUpdateValueLength)
  {
    if centrals.None? || centrals.value == [] then DefaultMtu else MinUpdateLength(centrals.value)
  }

  /** The error the update helper throws, checked in this order before anything is pushed:
      a payload over the MTU, then a characteristic that is not of the mutable kind. */
  function UpdateFailure(data: Bytes, c: Characteristic, centrals: Option<seq<Central>>): (r: Option<ManagerError>)
    ensures r.None? <==> |data| <= EffectiveMtu(centrals) && c.mutable.Some?
    ensures |data| > EffectiveMtu(centrals) ==> r == Some(UpdateValueError(DataTooLong))
    ensures |data| <= EffectiveMtu(centrals) && c.mutable.None? ==> r == Some(UpdateValueError(NotMutable))
    ensures r.Some? ==> r.value.UpdateValueError?
  {
    if |data| > EffectiveMtu(centrals) then Some(UpdateValueError(DataTooLong))
    else if c.mutable.None? then Some(UpdateValueError(NotMutable))
    else None
  }

  /** The values recorded for `c`, none when the key is absent. */
  function HistoryOf(h: History, c: CharRef): seq<Bytes> {
    if c in h then h[c] else []
  }

  /** The history after an accepted push of `data` to `c`: prepended, nothing dropped. */
  function Push(h: History, c: CharRef, data: Bytes): History {
    h[c := [data] + HistoryOf(h, c)]
  }

  /** The value a read of `c` is answered with: the newest recorded value, else the
      characteristic's own cached value. */
  function ReadResponse(h: History, c: Characteristic): (v: Option<Bytes>)
    ensures |HistoryOf(h, c.ref)| > 0 ==> v == Some(HistoryOf(h, c.ref)[0])
    ensures |HistoryOf(h, c.ref)| == 0 ==> v == c.value
  {
    if c.ref in h && |h[c.ref]| > 0 then Some(h[c.ref][0]) else c.value
  }

  /** A push grows the history of its key by exactly one entry, at the front, keeps every
      older entry, and touches no other key. */
  lemma PushSpec(h: History, c: CharRef, data: Bytes)
    ensures var r := Push(h, c, data);
      && r.Keys == h.Keys + {c}
      && |r[c]| == |HistoryOf(h, c)| + 1
      && r[c][0] == data && r[c][1..] == HistoryOf(h, c)
      && (forall k :: k in h && k != c ==> r[k] == h[k])
  {
    assert ([data] + HistoryOf(h, c))[1..] == HistoryOf(h, c);
  }

  /** After an accepted push, a read of that characteristic is answered with the pushed value;
      reads of other characteristics are answered as before. */
  lemma ReadAfterPush(h: History, c: Characteristic, d: Characteristic, data: Bytes)
    ensures ReadResponse(Push(h, c.ref, data), c) == Some(data)
    ensures d.ref != c.ref ==> ReadResponse(Push(h, c.ref, data), d) == ReadResponse(h, d)
  {
    assert HistoryOf(Push(h, c.ref, data), c.ref)[0] == data;
    if d.ref != c.ref {
      assert HistoryOf(Push(h, c.ref, data), d.ref) == HistoryOf(h, d.ref);
    }
  }

  /** `v` without its first `k` bytes (all of them when `k` is past the end). */
  function DropFirst(v: Bytes, k: nat): (r: Bytes)
    ensures |r| == if k <= |v| then |v| - k else 0
    ensures forall i :: 0 <= i < |r| ==> r[i] == v[k + i]
  {
    if k <= |v| then v[k..] else []
  }

  /** The buffer a write batch assembles: for every request that carries a value, in order,
      that value past the request's offset. */
  function WriteBuffer(requests: seq<AttRequest>): Bytes {
    if requests == [] then []
    else
      var last := requests[|requests| - 1];
      WriteBuffer(requests[..|requests| - 1])
        + (if last.value.Some? then DropFirst(last.value.value, last.offset) else [])
  }

  /** Assembly works batch piece by batch piece. */
  lemma {:induction false} WriteBufferAppend(a: seq<AttRequest>, b: seq<AttRequest>)
    ensures WriteBuffer(a + b) == WriteBuffer(a) + WriteBuffer(b)
  {
    if b == [] {
      assert a + b == a;
    } else {
      var b' := b[..|b| - 1];
      assert (a + b)[..|a + b| - 1] == a + b';
      assert (a + b)[|a + b| - 1] == b[|b| - 1];
      WriteBufferAppend(a, b');
    }
  }

  /** Requests without a value contribute nothing, and a lone request at offset 0 contributes
      its whole value. */
  lemma WriteBufferSingle(r: AttRequest)
    ensures r.value.None? ==> WriteBuffer([r]) == []
    ensures r.value.Some? && r.offset == 0 ==> WriteBuffer([r]) == r.value.value
  {
    assert [r][..0] == [];
  }

  /** The length of the assembled buffer: each valued request contributes its length past
      its offset, or nothing when the offset is past the end. */
  function Contribution(r: AttRequest): nat {
    if r.value.Some? && r.offset <= |r.value.value| then |r.value.value| - r.offset else 0
  }

  function TotalContribution(requests: seq<AttRequest>): nat {
    if requests == [] then 0 else Contribution(requests[0]) + TotalContribution(requests[1..])
  }

  lemma {:induction false} WriteBufferLength(requests: seq<AttRequest>)
    ensures |WriteBuffer(requests)| == TotalContribution(requests)
  {
    if requests != [] {
      var rest := requests[1..];
      assert requests == [requests[0]] + rest;
      WriteBufferAppend([requests[0]], rest);
      WriteBufferSingleLength(requests[0]);
      WriteBufferLength(rest);
    }
  }

  lemma WriteBufferSingleLength(r: AttRequest)
    ensures |WriteBuffer([r])| == Contribution(r)
  {
    assert [r][..0] == [];
  }

  /** The write handler's accumulation loop: skip requests without a value, append the rest
      past their offsets. */
  method AssembleWriteBuffer(requests: seq<AttRequest>) returns (data: Bytes)
    ensures data == WriteBuffer(requests)
  {
    data := [];
    var i := 0;
    while i < |requests|
      invariant 0 <= i <= |requests|
      invariant data == WriteBuffer(requests[..i])
    {
      assert requests[..i + 1][..i] == requests[..i];
      var request := requests[i];
      if request.value.None? {
        i := i + 1;
        continue;
      }
      var value := DropFirst(request.value.value, request.offset);
      data := data + value;
      i := i + 1;
    }
    assert requests[..i] == requests;
  }
}
