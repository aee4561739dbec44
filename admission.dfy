/**
  The pure parts of the admission cycle of client.js (`queueLoop`): how many
  queue entries a tick admits, how an entry's link is resolved to a magnet,
  and which torrents count as in progress.
*/
module Admission {
  import opened Wrappers

  function Min(a: int, b: int): int { if a <= b then a else b }
  function Max(a: int, b: int): int { if a <= b then b else a }

  /** A link is used as the magnet itself when it starts with "magnet:". */
  predicate IsMagnetLink(link: string)
  {
    |link| >= 7 && link[..7] == "magnet:"
  }

  /** The magnet of a queue entry. A magnet link is kept unchanged; any other
      link is requested with redirects disabled and `location` is the
      `Location` header of the answer (None when the header is absent). */
  function ResolveMagnet(link: string, location: Option<string>): (r: Option<string>)
    ensures IsMagnetLink(link) ==> r == Some(link)
    ensures !IsMagnetLink(link) ==> r == location
  {
    if IsMagnetLink(link) then Some(link) else location
  }

  /** The position a JavaScript `slice` bound `k` denotes in an array of
      length `len`: a negative bound counts from the end; both clamp to the array. */
  function JsSliceIndex(k: int, len: nat): (i: nat)
    ensures i <= len
    ensures 0 <= k ==> i == Min(k, len)
    ensures k < 0 ==> i + Min(-k, len) == len
  {
    if k < 0 then Max(len + k, 0) else Min(k, len)
  }

  /** `[q.slice(0, k), q.slice(k)]` as client.js computes them, with
      k = maxSimultaneousDownloads - torrentsInProgress().length. */
  function JsSplit<T>(q: seq<T>, k: int): (r: (seq<T>, seq<T>))
    ensures r.0 + r.1 == q
    ensures 0 <= k ==> r.0 == q[..Min(k, |q|)]
  {
    var i := JsSliceIndex(k, |q|);
    (q[..i], q[i..])
  }

  /** With more torrents in progress than the maximum (k < 0), the code as
      written admits every entry but the last -k instead of none. With five
      queued entries, a maximum of 2 and 3 torrents in progress it admits four. */
  lemma NegativeSlotsAdmitAlmostAll<T>(q: seq<T>, k: int)
    requires k < 0 && |q| > -k
    ensures |JsSplit(q, k).0| == |q| + k > 0
    ensures JsSplit(q, k).1 == q[|q| + k..]
  {
  }

  /** The intended split: at most `k` leading entries are admitted, none when
      no slot is free, and the rest stays queued in order. */
  function AdmissionSplit<T>(q: seq<T>, k: int): (r: (seq<T>, seq<T>))
    ensures r.0 + r.1 == q
    ensures |r.0| == if k <= 0 then 0 else Min(k, |q|)
    ensures r.0 == q[..|r.0|] && r.1 == q[|r.0|..]
  {
    var i := if k <= 0 then 0 else Min(k, |q|);
    (q[..i], q[i..])
  }

  /** Where slots are free, the intended split is exactly what the code computes. */
  lemma AdmissionSplitAgrees<T>(q: seq<T>, k: int)
    requires 0 <= k
    ensures AdmissionSplit(q, k) == JsSplit(q, k)
  {
  }

  /** What the admission cycle needs to know about a torrent of the engine. */
  datatype TorrentStatus = TorrentStatus(infoHash: string, complete: bool)

  /** `torrents.filter(t => t.progress < 1)`: the torrents not yet complete,
      each as often as it occurs among all the torrents. */
  function TorrentsInProgress(ts: seq<TorrentStatus>): (r: seq<TorrentStatus>)
    ensures |r| <= |ts|
    ensures forall t :: t in r ==> t in ts && !t.complete
    ensures forall t :: t in ts && !t.complete ==> t in r
  {
    if |ts| == 0 then []
    else if ts[0].complete then TorrentsInProgress(ts[1..])
    else [ts[0]] + TorrentsInProgress(ts[1..])
  }

  /** The filter keeps every torrent in progress as often as it occurs, and
      no complete one. */
  lemma {:induction false} InProgressCounts(ts: seq<TorrentStatus>)
    ensures forall t :: multiset(TorrentsInProgress(ts))[t] == if t.complete then 0 else multiset(ts)[t]
    decreases |ts|
  {
    if |ts| > 0 {
      InProgressCounts(ts[1..]);
      assert ts == [ts[0]] + ts[1..];
    }
  }

  /** With two slots, nothing in progress and five queued entries, exactly two
      are admitted; once one of two running torrents completes, one more is. */
  lemma TwoSlotsExample<T>(q: seq<T>, a: string, b: string)
    requires |q| == 5
    ensures |AdmissionSplit(q, 2 - |TorrentsInProgress([])|).0| == 2
    ensures |AdmissionSplit(q[2..], 2 - |TorrentsInProgress([TorrentStatus(a, true), TorrentStatus(b, false)])|).0| == 1
  {
    var ts := [TorrentStatus(a, true), TorrentStatus(b, false)];
    assert TorrentsInProgress(ts[1..][1..]) == [];
    assert TorrentsInProgress(ts) == [TorrentStatus(b, false)];
  }
}
