/**
  The stateful orchestration of client.js: the module-level download history
  and download queue (class Orchestrator) and the fields client.js hangs on
  each torrent the engine hands back (class Session). External results (the
  redirect's Location header, the rclone listing, the engine's metrics, the
  clock) come in as parameters. The calls the code makes on the outside world
  are kept, in order, in the ghost `log` of the Orchestrator.
*/
module Client {
  import opened Wrappers
  import opened FeedItems
  import History
  import opened Admission
  import opened Policy

  /** The ingestion cycle is skipped when more items than this are queued. */
  const MaxItemsInQueueForFetching := 10

  datatype Effect =
    | Recorded(key: string, tag: string)   // downloadHistory.set(key, tag)
    | EngineAdd(magnet: string)            // torrentClient.add(magnet, ...)
    | ClearInterval(timer: nat)            // clearInterval(checkerLoop)
    | Destroy(infoHash: string)            // torrent.destroy(...)
    | DeleteFolder(path: string)           // rimraf(torrent.path, ...)
    | StartUpload(path: string)            // uploadToDrive(torrent.path, ...)

  /** The keys recorded in the history along `log`. */
  ghost function RecordedKeys(log: seq<Effect>): set<string>
  {
    if log == [] then {}
    else RecordedKeys(log[..|log| - 1])
         + (if log[|log| - 1].Recorded? then {log[|log| - 1].key} else {})
  }

  /** Every magnet handed to the engine was recorded in the history before. */
  ghost predicate RecordedBeforeAdd(log: seq<Effect>)
  {
    log == []
    || (RecordedBeforeAdd(log[..|log| - 1])
        && (log[|log| - 1].EngineAdd? ==> log[|log| - 1].magnet in RecordedKeys(log[..|log| - 1])))
  }

  /** The recursive statement says what it should: at each hand-over to the
      engine, the magnet is among the keys recorded so far. */
  lemma {:induction false} RecordedBeforeAddAt(log: seq<Effect>, j: nat)
    requires RecordedBeforeAdd(log)
    requires j < |log| && log[j].EngineAdd?
    ensures log[j].magnet in RecordedKeys(log[..j])
    decreases |log|
  {
    var init := log[..|log| - 1];
    if j < |log| - 1 {
      assert init[j] == log[j];
      assert init[..j] == log[..j];
      RecordedBeforeAddAt(init, j);
    }
  }

  lemma AppendEffect(log: seq<Effect>, e: Effect)
    requires RecordedBeforeAdd(log)
    requires e.EngineAdd? ==> e.magnet in RecordedKeys(log)
    ensures RecordedKeys(log + [e]) == RecordedKeys(log) + (if e.Recorded? then {e.key} else {})
    ensures RecordedBeforeAdd(log + [e])
  {
    assert (log + [e])[..|log|] == log;
  }

  /** `[Recorded(...)...]` for `n` recordings of the pair (magnet, infoHash). */
  function RecordPairs(magnet: string, infoHash: string, n: nat): seq<Effect>
  {
    if n == 0 then []
    else RecordPairs(magnet, infoHash, n - 1) + [Recorded(magnet, "magnet"), Recorded(infoHash, "infoHash")]
  }

  /** The calls made by `removeTorrent(torrent, item, reason, afterRemove([checkerLoop]))`:
      the argument `afterRemove(...)` is evaluated first, so the interval is
      cleared at the call; then the torrent is destroyed and, once that is
      confirmed, its folder deleted. */
  function RetirementEffects(timer: nat, infoHash: string, path: string): seq<Effect>
  {
    [ClearInterval(timer), Destroy(infoHash), DeleteFolder(path)]
  }

  function ClearAll(timers: seq<nat>): (r: seq<Effect>)
    ensures |r| == |timers|
    ensures forall i :: 0 <= i < |timers| ==> r[i] == ClearInterval(timers[i])
  {
    seq(|timers|, i requires 0 <= i < |timers| => ClearInterval(timers[i]))
  }

  function Concat<T>(batches: seq<seq<T>>): seq<T>
  {
    if |batches| == 0 then [] else Concat(batches[..|batches| - 1]) + batches[|batches| - 1]
  }

  /** What admitting one queue entry came to. */
  datatype EntryOutcome = Discarded | InHistory(magnet: string) | Added(magnet: string)

  /** An entry's outcome fits its resolved magnet: discarded exactly when there
      is none, and otherwise about that magnet, which is in the history. */
  predicate Admitted(a: EntryOutcome, resolved: Option<string>, history: History.Store)
  {
    (a.Discarded? <==> resolved.None?)
    && (!a.Discarded? ==> a.magnet == resolved.value && a.magnet in history)
  }

  /** The outcome of an admission callback that goes on with the magnet
      `resolved` (None: there is none) and finds the history `h`. */
  function Admit(resolved: Option<string>, h: History.Store): EntryOutcome
  {
    match resolved
    case None => Discarded
    case Some(m) => if History.Contains(h, m) then InHistory(m) else Added(m)
  }

  /** The magnets of the `Added` outcomes, in order. */
  function AddedMagnets(os: seq<EntryOutcome>): seq<string>
  {
    if |os| == 0 then []
    else AddedMagnets(os[..|os| - 1]) + (if os[|os| - 1].Added? then [os[|os| - 1].magnet] else [])
  }

  function Elements(ms: seq<string>): set<string>
  {
    set m | m in ms
  }

  /** The history entries `downloadHistory.set(m, 'magnet')` writes for every m in `ms`. */
  function Tagged(ms: set<string>): map<string, string>
  {
    map m | m in ms :: "magnet"
  }

  /** `h` after `downloadHistory.set(m, 'magnet')` for each m of `ms` in turn. */
  function RecordAll(h: History.Store, ms: seq<string>): History.Store
  {
    if |ms| == 0 then h else History.Set(RecordAll(h, ms[..|ms| - 1]), ms[|ms| - 1], "magnet")
  }

  /** The entries whose link is (`magnetLinks`) or is not (`!magnetLinks`) a
      magnet link, in queue order. */
  function ItemsAmong(admitted: seq<Item>, magnetLinks: bool): seq<Item>
  {
    if |admitted| == 0 then []
    else ItemsAmong(admitted[..|admitted| - 1], magnetLinks)
         + (if IsMagnetLink(admitted[|admitted| - 1].link) == magnetLinks then [admitted[|admitted| - 1]] else [])
  }

  /** The outcomes of the entries `ItemsAmong(admitted, magnetLinks)` selects, in queue order. */
  function Among(admitted: seq<Item>, outcomes: seq<EntryOutcome>, magnetLinks: bool): seq<EntryOutcome>
    requires |outcomes| == |admitted|
  {
    if |admitted| == 0 then []
    else Among(admitted[..|admitted| - 1], outcomes[..|outcomes| - 1], magnetLinks)
         + (if IsMagnetLink(admitted[|admitted| - 1].link) == magnetLinks then [outcomes[|outcomes| - 1]] else [])
  }

  function Links(items: seq<Item>): seq<string>
  {
    if |items| == 0 then [] else Links(items[..|items| - 1]) + [items[|items| - 1].link]
  }

  /** The magnet each entry resolves to, given the Location header `redirect` answers with. */
  function Resolutions(items: seq<Item>, redirect: string -> Option<string>): seq<Option<string>>
  {
    if |items| == 0 then []
    else Resolutions(items[..|items| - 1], redirect)
         + [ResolveMagnet(items[|items| - 1].link, redirect(items[|items| - 1].link))]
  }

  /** Magnet links all looked up in the same history `h`. */
  function LookUps(links: seq<string>, h: History.Store): seq<EntryOutcome>
  {
    if |links| == 0 then [] else LookUps(links[..|links| - 1], h) + [Admit(Some(links[|links| - 1]), h)]
  }

  /** Callbacks that go on one after another from history `h`, each recording
      its magnet when it misses: the outcomes and the history they leave. */
  function SerialRun(resolved: seq<Option<string>>, h: History.Store): (seq<EntryOutcome>, History.Store)
  {
    if |resolved| == 0 then ([], h)
    else
      var before := SerialRun(resolved[..|resolved| - 1], h);
      var a := Admit(resolved[|resolved| - 1], before.1);
      (before.0 + [a], if a.Added? then History.Set(before.1, a.magnet, "magnet") else before.1)
  }

  function RecordEach(ms: seq<string>): seq<Effect>
  {
    if |ms| == 0 then [] else RecordEach(ms[..|ms| - 1]) + [Recorded(ms[|ms| - 1], "magnet")]
  }

  function AddEach(ms: seq<string>): seq<Effect>
  {
    if |ms| == 0 then [] else AddEach(ms[..|ms| - 1]) + [EngineAdd(ms[|ms| - 1])]
  }

  /** Each magnet recorded and then handed to the engine, one after the other. */
  function SerialEffects(ms: seq<string>): seq<Effect>
  {
    if |ms| == 0 then []
    else SerialEffects(ms[..|ms| - 1]) + [Recorded(ms[|ms| - 1], "magnet"), EngineAdd(ms[|ms| - 1])]
  }

  /** `currentDownloads.forEach(async item => ...)` as JavaScript runs it on the
      in-memory history, from history `h0` and log `l0` to `h` and `l`. Each
      callback runs up to its first `await` before the next one starts, and a
      magnet link is looked up there and then: every magnet link is checked
      against the history as the tick found it. Those callbacks then go on in
      queue order: each new magnet is recorded, and in the next round each is
      handed to the engine. An entry with another link goes on only once its
      request answers, after all of that; those are taken in queue order, each
      finding the magnets recorded before it. */
  ghost predicate AdmittedAsRun(admitted: seq<Item>, redirect: string -> Option<string>, outcomes: seq<EntryOutcome>,
                                h0: History.Store, h: History.Store, l0: seq<Effect>, l: seq<Effect>)
  {
    |outcomes| == |admitted|
    && var first := LookUps(Links(ItemsAmong(admitted, true)), h0);
       var missed := AddedMagnets(first);
       var later := SerialRun(Resolutions(ItemsAmong(admitted, false), redirect), RecordAll(h0, missed));
       Among(admitted, outcomes, true) == first
       && Among(admitted, outcomes, false) == later.0
       && h == later.1
       && l == l0 + RecordEach(missed) + AddEach(missed) + SerialEffects(AddedMagnets(later.0))
  }

  lemma AddedMagnetsSnoc(os: seq<EntryOutcome>, o: EntryOutcome)
    ensures AddedMagnets(os + [o]) == AddedMagnets(os) + (if o.Added? then [o.magnet] else [])
  {
    assert (os + [o])[..|os|] == os;
  }

  lemma SerialEffectsSnoc(ms: seq<string>, m: string)
    ensures SerialEffects(ms + [m]) == SerialEffects(ms) + [Recorded(m, "magnet"), EngineAdd(m)]
  {
    assert (ms + [m])[..|ms|] == ms;
  }

  lemma AmongSnoc(admitted: seq<Item>, outcomes: seq<EntryOutcome>, item: Item, o: EntryOutcome, magnetLinks: bool)
    requires |outcomes| == |admitted|
    ensures Among(admitted + [item], outcomes + [o], magnetLinks)
      == Among(admitted, outcomes, magnetLinks) + (if IsMagnetLink(item.link) == magnetLinks then [o] else [])
  {
    assert (admitted + [item])[..|admitted|] == admitted;
    assert (outcomes + [o])[..|outcomes|] == outcomes;
  }

  lemma ItemsAmongSnoc(admitted: seq<Item>, item: Item, magnetLinks: bool)
    ensures ItemsAmong(admitted + [item], magnetLinks)
      == ItemsAmong(admitted, magnetLinks) + (if IsMagnetLink(item.link) == magnetLinks then [item] else [])
  {
    assert (admitted + [item])[..|admitted|] == admitted;
  }

  lemma ResolutionsSnoc(items: seq<Item>, item: Item, redirect: string -> Option<string>)
    ensures Resolutions(items + [item], redirect) == Resolutions(items, redirect) + [ResolveMagnet(item.link, redirect(item.link))]
  {
    assert (items + [item])[..|items|] == items;
  }

  lemma LookUpsSnoc(items: seq<Item>, item: Item, h: History.Store)
    ensures LookUps(Links(items + [item]), h) == LookUps(Links(items), h) + [Admit(Some(item.link), h)]
  {
    assert (items + [item])[..|items|] == items;
    var links := Links(items);
    assert (links + [item.link])[..|links|] == links;
  }

  /** `Among` and `ItemsAmong` select the same positions. */
  lemma {:induction false} AmongLength(admitted: seq<Item>, outcomes: seq<EntryOutcome>, magnetLinks: bool)
    requires |outcomes| == |admitted|
    ensures |Among(admitted, outcomes, magnetLinks)| == |ItemsAmong(admitted, magnetLinks)|
    decreases |admitted|
  {
    if |admitted| > 0 {
      AmongLength(admitted[..|admitted| - 1], outcomes[..|outcomes| - 1], magnetLinks);
    }
  }

  /** The entry at `i` is the `k`-th of its kind, with its outcome at the same place. */
  lemma {:induction false} AmongAt(admitted: seq<Item>, outcomes: seq<EntryOutcome>, magnetLinks: bool, i: nat) returns (k: nat)
    requires |outcomes| == |admitted| && i < |admitted| && IsMagnetLink(admitted[i].link) == magnetLinks
    ensures k < |Among(admitted, outcomes, magnetLinks)| && k < |ItemsAmong(admitted, magnetLinks)|
    ensures Among(admitted, outcomes, magnetLinks)[k] == outcomes[i]
    ensures ItemsAmong(admitted, magnetLinks)[k] == admitted[i]
    decreases |admitted|
  {
    var n := |admitted| - 1;
    AmongLength(admitted[..n], outcomes[..n], magnetLinks);
    if i < n {
      assert admitted[..n][i] == admitted[i] && outcomes[..n][i] == outcomes[i];
      k := AmongAt(admitted[..n], outcomes[..n], magnetLinks, i);
    } else {
      k := |ItemsAmong(admitted[..n], magnetLinks)|;
    }
  }

  lemma SerialRunSnoc(resolved: seq<Option<string>>, r: Option<string>, h: History.Store)
    ensures var before := SerialRun(resolved, h);
      var a := Admit(r, before.1);
      SerialRun(resolved + [r], h)
        == (before.0 + [a], if a.Added? then History.Set(before.1, a.magnet, "magnet") else before.1)
  {
    assert (resolved + [r])[..|resolved|] == resolved;
  }

  /** Recording magnets in turn adds exactly them, each tagged "magnet". */
  lemma {:induction false} RecordAllTagged(h: History.Store, ms: seq<string>)
    ensures RecordAll(h, ms) == h + Tagged(Elements(ms))
    decreases |ms|
  {
    if |ms| > 0 {
      var init := ms[..|ms| - 1];
      RecordAllTagged(h, init);
      assert ms == init + [ms[|ms| - 1]];
      assert Elements(ms) == Elements(init) + {ms[|ms| - 1]};
    }
  }

  lemma RecordAllSnoc(h: History.Store, ms: seq<string>, m: string)
    ensures RecordAll(h, ms + [m]) == History.Set(RecordAll(h, ms), m, "magnet")
  {
    assert (ms + [m])[..|ms|] == ms;
  }

  lemma {:induction false} SerialRunLength(resolved: seq<Option<string>>, h: History.Store)
    ensures |SerialRun(resolved, h).0| == |resolved|
    decreases |resolved|
  {
    if |resolved| > 0 {
      SerialRunLength(resolved[..|resolved| - 1], h);
    }
  }

  /** The serial run only adds the magnets it reports as added. */
  lemma {:induction false} SerialRunRecords(resolved: seq<Option<string>>, h: History.Store)
    ensures SerialRun(resolved, h).1 == RecordAll(h, AddedMagnets(SerialRun(resolved, h).0))
    decreases |resolved|
  {
    if |resolved| > 0 {
      var init := resolved[..|resolved| - 1];
      SerialRunRecords(init, h);
      var before := SerialRun(init, h);
      var a := Admit(resolved[|resolved| - 1], before.1);
      assert resolved == init + [resolved[|resolved| - 1]];
      SerialRunSnoc(init, resolved[|resolved| - 1], h);
      AddedMagnetsSnoc(before.0, a);
      if a.Added? {
        RecordAllSnoc(h, AddedMagnets(before.0), a.magnet);
      } else {
        assert AddedMagnets(before.0 + [a]) == AddedMagnets(before.0);
      }
    }
  }

  /** Each callback of the serial run finds the history as it started plus
      the magnets added before it. */
  lemma {:induction false} SerialRunSees(resolved: seq<Option<string>>, h: History.Store, k: nat)
    requires k < |resolved|
    ensures |SerialRun(resolved, h).0| == |resolved|
    ensures SerialRun(resolved, h).0[k]
      == Admit(resolved[k], h + Tagged(Elements(AddedMagnets(SerialRun(resolved, h).0[..k]))))
    decreases |resolved|
  {
    var n := |resolved| - 1;
    var init := resolved[..n];
    SerialRunRecords(init, h);
    SerialRunLength(init, h);
    SerialRunRecords(resolved, h);
    SerialRunLength(resolved, h);
    var os := SerialRun(resolved, h).0;
    assert os[..n] == SerialRun(init, h).0;
    if k < n {
      SerialRunSees(init, h, k);
      assert init[k] == resolved[k];
      assert os[..n][..k] == os[..k];
    } else {
      assert os[..k] == SerialRun(init, h).0;
      RecordAllTagged(h, AddedMagnets(SerialRun(init, h).0));
    }
  }

  /** The magnets the serial run adds were not in the history it started
      from, and no magnet is added twice. */
  lemma {:induction false} SerialRunAddsOnce(resolved: seq<Option<string>>, h: History.Store)
    requires forall key :: key in h ==> h[key] != ""
    ensures |SerialRun(resolved, h).0| == |resolved|
    ensures forall k :: 0 <= k < |resolved| && SerialRun(resolved, h).0[k].Added? ==>
      SerialRun(resolved, h).0[k].magnet !in h
    ensures forall i, j :: 0 <= i < j < |resolved| && SerialRun(resolved, h).0[i].Added? && SerialRun(resolved, h).0[j].Added? ==>
      SerialRun(resolved, h).0[i].magnet != SerialRun(resolved, h).0[j].magnet
    decreases |resolved|
  {
    if |resolved| > 0 {
      var n := |resolved| - 1;
      var init := resolved[..n];
      SerialRunAddsOnce(init, h);
      SerialRunRecords(init, h);
      SerialRunLength(init, h);
      var before := SerialRun(init, h);
      var os := SerialRun(resolved, h).0;
      assert os[..n] == before.0;
      var a := os[n];
      if a.Added? {
        RecordAllTagged(h, AddedMagnets(before.0));
        forall i | 0 <= i < n && os[i].Added?
          ensures os[i].magnet != a.magnet
        {
          assert before.0[i] == os[i];
          AddedIn(before.0, i);
        }
      }
    }
  }

  /** An `Added` outcome's magnet is among `AddedMagnets`. */
  lemma {:induction false} AddedIn(os: seq<EntryOutcome>, i: nat)
    requires i < |os| && os[i].Added?
    ensures os[i].magnet in Elements(AddedMagnets(os))
    decreases |os|
  {
    var n := |os| - 1;
    if i < n {
      assert os[..n][i] == os[i];
      AddedIn(os[..n], i);
    }
  }

  /** The magnets added before position `k` are among all those added. */
  lemma {:induction false} AddedMagnetsPrefix(os: seq<EntryOutcome>, k: nat)
    requires k <= |os|
    ensures Elements(AddedMagnets(os[..k])) <= Elements(AddedMagnets(os))
    decreases |os|
  {
    var n := |os| - 1;
    if k <= n {
      assert os[..n][..k] == os[..k];
      AddedMagnetsPrefix(os[..n], k);
    } else {
      assert os[..k] == os;
    }
  }

  /** Every entry of the serial run ends up fitting its magnet, in the history
      it leaves, which keeps every key it started with. */
  lemma SerialRunAdmitted(resolved: seq<Option<string>>, h: History.Store)
    ensures |SerialRun(resolved, h).0| == |resolved|
    ensures forall k :: 0 <= k < |resolved| ==> Admitted(SerialRun(resolved, h).0[k], resolved[k], SerialRun(resolved, h).1)
    ensures h.Keys <= SerialRun(resolved, h).1.Keys
  {
    var run := SerialRun(resolved, h);
    SerialRunRecords(resolved, h);
    SerialRunLength(resolved, h);
    RecordAllTagged(h, AddedMagnets(run.0));
    forall k | 0 <= k < |resolved|
      ensures Admitted(run.0[k], resolved[k], run.1)
    {
      SerialRunSees(resolved, h, k);
      AddedMagnetsPrefix(run.0, k);
      if run.0[k].Added? {
        AddedIn(run.0, k);
      }
    }
  }

  lemma {:induction false} LinksAt(items: seq<Item>, k: nat)
    requires k < |items|
    ensures |Links(items)| == |items| && Links(items)[k] == items[k].link
    decreases |items|
  {
    var n := |items| - 1;
    if n > 0 {
      LinksAt(items[..n], if k < n then k else 0);
    }
    if k < n {
      assert items[..n][k] == items[k];
    }
  }

  lemma {:induction false} LookUpsAt(links: seq<string>, h: History.Store, k: nat)
    requires k < |links|
    ensures |LookUps(links, h)| == |links| && LookUps(links, h)[k] == Admit(Some(links[k]), h)
    decreases |links|
  {
    var n := |links| - 1;
    if n > 0 {
      LookUpsAt(links[..n], h, if k < n then k else 0);
    }
    if k < n {
      assert links[..n][k] == links[k];
    }
  }

  lemma {:induction false} ResolutionsAt(items: seq<Item>, redirect: string -> Option<string>, k: nat)
    requires k < |items|
    ensures |Resolutions(items, redirect)| == |items|
    ensures Resolutions(items, redirect)[k] == ResolveMagnet(items[k].link, redirect(items[k].link))
    decreases |items|
  {
    var n := |items| - 1;
    if n > 0 {
      ResolutionsAt(items[..n], redirect, if k < n then k else 0);
    }
    if k < n {
      assert items[..n][k] == items[k];
    }
  }

  /** A magnet link's outcome is its look-up in the history the tick found,
      and a miss is among the magnets recorded before the engine is called. */
  lemma MagnetLinkLookedUp(admitted: seq<Item>, outcomes: seq<EntryOutcome>, h0: History.Store, i: nat)
    requires |outcomes| == |admitted| && i < |admitted| && IsMagnetLink(admitted[i].link)
    requires Among(admitted, outcomes, true) == LookUps(Links(ItemsAmong(admitted, true)), h0)
    ensures outcomes[i] == Admit(Some(admitted[i].link), h0)
    ensures outcomes[i].Added? ==> outcomes[i].magnet in Elements(AddedMagnets(Among(admitted, outcomes, true)))
  {
    var k := AmongAt(admitted, outcomes, true, i);
    LinksAt(ItemsAmong(admitted, true), k);
    LookUpsAt(Links(ItemsAmong(admitted, true)), h0, k);
    if outcomes[i].Added? {
      AddedIn(Among(admitted, outcomes, true), k);
    }
  }

  /** Another entry's outcome is the serial run's outcome for its resolved magnet. */
  lemma RedirectedRun(admitted: seq<Item>, outcomes: seq<EntryOutcome>, redirect: string -> Option<string>, i: nat)
    returns (k: nat)
    requires |outcomes| == |admitted| && i < |admitted| && !IsMagnetLink(admitted[i].link)
    ensures k < |Among(admitted, outcomes, false)| && k < |Resolutions(ItemsAmong(admitted, false), redirect)|
    ensures Among(admitted, outcomes, false)[k] == outcomes[i]
    ensures Resolutions(ItemsAmong(admitted, false), redirect)[k] == ResolveMagnet(admitted[i].link, redirect(admitted[i].link))
  {
    k := AmongAt(admitted, outcomes, false, i);
    ResolutionsAt(ItemsAmong(admitted, false), redirect, k);
  }

  lemma TaggedUnion(h: History.Store, a: set<string>, b: set<string>)
    ensures h + Tagged(a) + Tagged(b) == h + Tagged(a + b)
  {
  }

  /** The history a tick leaves is the one it found plus the added magnets,
      tagged "magnet". */
  lemma AdmittedAsRunHistory(admitted: seq<Item>, redirect: string -> Option<string>, outcomes: seq<EntryOutcome>,
                             h0: History.Store, h: History.Store, l0: seq<Effect>, l: seq<Effect>)
    requires AdmittedAsRun(admitted, redirect, outcomes, h0, h, l0, l)
    ensures h == h0 + Tagged(Elements(AddedMagnets(Among(admitted, outcomes, true))) + Elements(AddedMagnets(Among(admitted, outcomes, false))))
    ensures h0.Keys <= h.Keys
    ensures l == l0 + RecordEach(AddedMagnets(Among(admitted, outcomes, true))) + AddEach(AddedMagnets(Among(admitted, outcomes, true)))
                 + SerialEffects(AddedMagnets(Among(admitted, outcomes, false)))
  {
    var missed := AddedMagnets(LookUps(Links(ItemsAmong(admitted, true)), h0));
    var h1 := RecordAll(h0, missed);
    var later := SerialRun(Resolutions(ItemsAmong(admitted, false), redirect), h1);
    RecordAllTagged(h0, missed);
    SerialRunRecords(Resolutions(ItemsAmong(admitted, false), redirect), h1);
    RecordAllTagged(h1, AddedMagnets(later.0));
    TaggedUnion(h0, Elements(missed), Elements(AddedMagnets(later.0)));
  }

  /** What the run of one tick amounts to: every resolved magnet is in the
      history it leaves, and nothing handed to the engine was in the history
      the tick found. */
  lemma AdmittedAsRunOutcomes(admitted: seq<Item>, redirect: string -> Option<string>, outcomes: seq<EntryOutcome>,
                              h0: History.Store, h: History.Store, l0: seq<Effect>, l: seq<Effect>)
    requires forall key :: key in h0 ==> h0[key] != ""
    requires AdmittedAsRun(admitted, redirect, outcomes, h0, h, l0, l)
    ensures forall i :: 0 <= i < |admitted| ==> Admitted(outcomes[i], ResolveMagnet(admitted[i].link, redirect(admitted[i].link)), h)
    ensures forall i :: 0 <= i < |outcomes| && outcomes[i].Added? ==> outcomes[i].magnet !in h0
  {
    var missed := AddedMagnets(LookUps(Links(ItemsAmong(admitted, true)), h0));
    var h1 := RecordAll(h0, missed);
    var resolved := Resolutions(ItemsAmong(admitted, false), redirect);
    RecordAllTagged(h0, missed);
    SerialRunAdmitted(resolved, h1);
    SerialRunAddsOnce(resolved, h1);
    forall i | 0 <= i < |admitted|
      ensures Admitted(outcomes[i], ResolveMagnet(admitted[i].link, redirect(admitted[i].link)), h)
      ensures outcomes[i].Added? ==> outcomes[i].magnet !in h0
    {
      if IsMagnetLink(admitted[i].link) {
        MagnetLinkLookedUp(admitted, outcomes, h0, i);
      } else {
        var k := RedirectedRun(admitted, outcomes, redirect, i);
      }
    }
  }

  /** Two entries with the same new magnet link: both are looked up, and
      both miss. */
  lemma MagnetLinkPair(item: Item, h0: History.Store)
    requires IsMagnetLink(item.link) && !History.Contains(h0, item.link)
    ensures ItemsAmong([item, item], true) == [item, item]
    ensures ItemsAmong([item, item], false) == []
    ensures LookUps(Links([item, item]), h0) == [Added(item.link), Added(item.link)]
    ensures AddedMagnets([Added(item.link), Added(item.link)]) == [item.link, item.link]
  {
    var m := item.link;
    assert [item] == [] + [item] && [item, item] == [item] + [item];
    ItemsAmongSnoc([], item, true);
    ItemsAmongSnoc([item], item, true);
    ItemsAmongSnoc([], item, false);
    ItemsAmongSnoc([item], item, false);
    LookUpsSnoc([], item, h0);
    LookUpsSnoc([item], item, h0);
    assert [Added(m)] == [] + [Added(m)] && [Added(m), Added(m)] == [Added(m)] + [Added(m)];
    AddedMagnetsSnoc([], Added(m));
    AddedMagnetsSnoc([Added(m)], Added(m));
  }

  lemma MagnetPairEffects(m: string)
    ensures RecordEach([m, m]) == [Recorded(m, "magnet"), Recorded(m, "magnet")]
    ensures AddEach([m, m]) == [EngineAdd(m), EngineAdd(m)]
  {
    assert [m, m][..1] == [m] && [m][..0] == [];
    assert RecordEach([m]) == [Recorded(m, "magnet")];
    assert AddEach([m]) == [EngineAdd(m)];
  }

  lemma AmongMagnetLinkPair(item: Item, outcomes: seq<EntryOutcome>)
    requires IsMagnetLink(item.link) && |outcomes| == 2
    ensures Among([item, item], outcomes, true) == outcomes
  {
    assert [item] == [] + [item] && [item, item] == [item] + [item];
    assert [outcomes[0]] == [] + [outcomes[0]] && outcomes == [outcomes[0]] + [outcomes[1]];
    AmongSnoc([], [], item, outcomes[0], true);
    AmongSnoc([item], [outcomes[0]], item, outcomes[1], true);
  }

  /** As written: two queue entries with the same new magnet link, admitted in
      one tick, are both looked up before either is recorded, so the magnet is
      recorded twice and handed to the engine twice. */
  lemma SameMagnetLinkAddedTwice(item: Item, redirect: string -> Option<string>, outcomes: seq<EntryOutcome>,
                                 h0: History.Store, h: History.Store, l0: seq<Effect>, l: seq<Effect>)
    requires IsMagnetLink(item.link) && !History.Contains(h0, item.link)
    requires AdmittedAsRun([item, item], redirect, outcomes, h0, h, l0, l)
    ensures outcomes == [Added(item.link), Added(item.link)]
    ensures l == l0 + [Recorded(item.link, "magnet"), Recorded(item.link, "magnet"), EngineAdd(item.link), EngineAdd(item.link)]
  {
    MagnetLinkPair(item, h0);
    MagnetPairEffects(item.link);
    AmongMagnetLinkPair(item, outcomes);
  }

  /** The same two entries admitted one after the other: the second finds the
      magnet the first recorded. */
  lemma SameMagnetTwiceSerially(m: string, h: History.Store)
    requires !History.Contains(h, m)
    ensures SerialRun([Some(m), Some(m)], h).0 == [Added(m), InHistory(m)]
  {
    SerialRunSnoc([], Some(m), h);
    SerialRunSnoc([Some(m)], Some(m), h);
    assert [Some(m)] == [] + [Some(m)] && [Some(m), Some(m)] == [Some(m)] + [Some(m)];
    assert History.Contains(History.Set(h, m, "magnet"), m);
  }

  /** One more entry of the first pass: a magnet link is looked up in `h`. */
  lemma LookUpStep(admitted: seq<Item>, found: seq<EntryOutcome>, missed: seq<string>, item: Item, a: EntryOutcome, h: History.Store)
    requires |found| == |admitted|
    requires Among(admitted, found, true) == LookUps(Links(ItemsAmong(admitted, true)), h)
    requires missed == AddedMagnets(Among(admitted, found, true))
    requires a == if IsMagnetLink(item.link) then Admit(Some(item.link), h) else Discarded
    ensures Among(admitted + [item], found + [a], true) == LookUps(Links(ItemsAmong(admitted + [item], true)), h)
    ensures AddedMagnets(Among(admitted + [item], found + [a], true))
      == if IsMagnetLink(item.link) && a.Added? then missed + [item.link] else missed
  {
    if IsMagnetLink(item.link) {
      MagnetLinkStep(admitted, found, item, h);
    } else {
      OtherLinkStep(admitted, found, item, a);
    }
  }

  lemma MagnetLinkStep(admitted: seq<Item>, found: seq<EntryOutcome>, item: Item, h: History.Store)
    requires |found| == |admitted| && IsMagnetLink(item.link)
    ensures var a := Admit(Some(item.link), h);
      ItemsAmong(admitted + [item], true) == ItemsAmong(admitted, true) + [item]
      && Among(admitted + [item], found + [a], true) == Among(admitted, found, true) + [a]
      && LookUps(Links(ItemsAmong(admitted, true) + [item]), h) == LookUps(Links(ItemsAmong(admitted, true)), h) + [a]
      && AddedMagnets(Among(admitted, found, true) + [a])
         == AddedMagnets(Among(admitted, found, true)) + (if a.Added? then [item.link] else [])
  {
    var a := Admit(Some(item.link), h);
    ItemsAmongSnoc(admitted, item, true);
    AmongSnoc(admitted, found, item, a, true);
    LookUpsSnoc(ItemsAmong(admitted, true), item, h);
    AddedMagnetsSnoc(Among(admitted, found, true), a);
  }

  lemma OtherLinkStep(admitted: seq<Item>, found: seq<EntryOutcome>, item: Item, a: EntryOutcome)
    requires |found| == |admitted| && !IsMagnetLink(item.link)
    ensures ItemsAmong(admitted + [item], true) == ItemsAmong(admitted, true)
    ensures Among(admitted + [item], found + [a], true) == Among(admitted, found, true)
  {
    ItemsAmongSnoc(admitted, item, true);
    AmongSnoc(admitted, found, item, a, true);
  }

  /** One more callback of a serial run: it finds `h` and leaves `h1`, `l1`. */
  lemma SerialStep(resolved: seq<Option<string>>, r: Option<string>, h0: History.Store, outcomes: seq<EntryOutcome>,
                   h: History.Store, l0: seq<Effect>, l: seq<Effect>, a: EntryOutcome, h1: History.Store, l1: seq<Effect>)
    requires (outcomes, h) == SerialRun(resolved, h0)
    requires l == l0 + SerialEffects(AddedMagnets(outcomes))
    requires a == Admit(r, h)
    requires h1 == if a.Added? then History.Set(h, a.magnet, "magnet") else h
    requires l1 == l + if a.Added? then [Recorded(a.magnet, "magnet"), EngineAdd(a.magnet)] else []
    ensures (outcomes + [a], h1) == SerialRun(resolved + [r], h0)
    ensures l1 == l0 + SerialEffects(AddedMagnets(outcomes + [a]))
  {
    SerialRunSnoc(resolved, r, h0);
    AddedMagnetsSnoc(outcomes, a);
    if a.Added? {
      SerialEffectsSnoc(AddedMagnets(outcomes), a.magnet);
    } else {
      assert AddedMagnets(outcomes + [a]) == AddedMagnets(outcomes);
    }
  }

  /** One more entry of the second pass: a magnet link keeps the outcome `f`
      it was found with, and any other entry is admitted from `h`. */
  lemma RedirectStep(admitted: seq<Item>, outcomes: seq<EntryOutcome>, found: seq<EntryOutcome>, item: Item,
                     a: EntryOutcome, f: EntryOutcome, redirect: string -> Option<string>, h0: History.Store,
                     h: History.Store, l0: seq<Effect>, l: seq<Effect>, h1: History.Store, l1: seq<Effect>)
    requires |outcomes| == |admitted| && |found| == |admitted|
    requires Among(admitted, outcomes, true) == Among(admitted, found, true)
    requires (Among(admitted, outcomes, false), h) == SerialRun(Resolutions(ItemsAmong(admitted, false), redirect), h0)
    requires l == l0 + SerialEffects(AddedMagnets(Among(admitted, outcomes, false)))
    requires IsMagnetLink(item.link) ==> a == f && h1 == h && l1 == l
    requires !IsMagnetLink(item.link) ==>
      a == Admit(ResolveMagnet(item.link, redirect(item.link)), h)
      && h1 == (if a.Added? then History.Set(h, a.magnet, "magnet") else h)
      && l1 == l + (if a.Added? then [Recorded(a.magnet, "magnet"), EngineAdd(a.magnet)] else [])
    ensures Among(admitted + [item], outcomes + [a], true) == Among(admitted + [item], found + [f], true)
    ensures (Among(admitted + [item], outcomes + [a], false), h1)
      == SerialRun(Resolutions(ItemsAmong(admitted + [item], false), redirect), h0)
    ensures l1 == l0 + SerialEffects(AddedMagnets(Among(admitted + [item], outcomes + [a], false)))
  {
    ItemsAmongSnoc(admitted, item, false);
    AmongSnoc(admitted, outcomes, item, a, true);
    AmongSnoc(admitted, outcomes, item, a, false);
    AmongSnoc(admitted, found, item, f, true);
    if IsMagnetLink(item.link) {
      assert ItemsAmong(admitted + [item], false) == ItemsAmong(admitted, false);
      assert Among(admitted + [item], outcomes + [a], false) == Among(admitted, outcomes, false);
    } else {
      ResolutionsSnoc(ItemsAmong(admitted, false), item, redirect);
      SerialStep(Resolutions(ItemsAmong(admitted, false), redirect), ResolveMagnet(item.link, redirect(item.link)),
                 h0, Among(admitted, outcomes, false), h, l0, l, a, h1, l1);
    }
  }

  /** The entries of a tick admitted one after another from history `h`:
      each fits its magnet in the history left behind, none handed to the
      engine was in `h`, and none is handed to it twice. */
  lemma SerialAdmission(admitted: seq<Item>, redirect: string -> Option<string>, h: History.Store)
    requires forall key :: key in h ==> h[key] != ""
    ensures var run := SerialRun(Resolutions(admitted, redirect), h);
      |run.0| == |admitted|
      && (forall i :: 0 <= i < |admitted| ==> Admitted(run.0[i], ResolveMagnet(admitted[i].link, redirect(admitted[i].link)), run.1))
      && (forall i :: 0 <= i < |run.0| && run.0[i].Added? ==> run.0[i].magnet !in h)
      && (forall i, j :: 0 <= i < j < |run.0| && run.0[i].Added? && run.0[j].Added? ==> run.0[i].magnet != run.0[j].magnet)
      && h.Keys <= run.1.Keys
  {
    var resolved := Resolutions(admitted, redirect);
    SerialRunAdmitted(resolved, h);
    SerialRunAddsOnce(resolved, h);
    forall i | 0 <= i < |admitted|
      ensures |resolved| == |admitted| && resolved[i] == ResolveMagnet(admitted[i].link, redirect(admitted[i].link))
    {
      ResolutionsAt(admitted, redirect, i);
    }
    if |admitted| == 0 {
      assert resolved == [];
    }
  }

  class Orchestrator {
    var history: History.Store
    var queue: seq<Item>
    ghost var log: seq<Effect>

    ghost predicate Valid()
      reads this`history, this`log
    {
      (forall k :: k in history ==> history[k] != "")
      && history.Keys == RecordedKeys(log)
      && RecordedBeforeAdd(log)
    }

    constructor ()
      ensures Valid()
      ensures history == map[] && queue == [] && log == []
    {
      history := map[];
      queue := [];
      log := [];
    }

    /** `downloadHistory.set(key, tag)`. */
    method Record(key: string, tag: string)
      requires Valid() && tag != ""
      modifies this`history, this`log
      ensures Valid()
      ensures history == History.Set(old(history), key, tag)
      ensures log == old(log) + [Recorded(key, tag)]
    {
      AppendEffect(log, Recorded(key, tag));
      history := history[key := tag];
      log := log + [Recorded(key, tag)];
    }

    ghost method Emit(e: Effect)
      requires Valid() && !e.Recorded?
      requires e.EngineAdd? ==> History.Contains(history, e.magnet)
      modifies this`log
      ensures Valid()
      ensures history == old(history) && log == old(log) + [e]
    {
      AppendEffect(log, e);
      log := log + [e];
    }

    /** `afterRemove(loopsToClear)`: clears each interval in turn. */
    method AfterRemove(timers: seq<nat>)
      requires Valid()
      modifies this
      ensures Valid()
      ensures history == old(history) && queue == old(queue)
      ensures log == old(log) + ClearAll(timers)
    {
      for i := 0 to |timers|
        invariant Valid()
        invariant history == old(history) && queue == old(queue)
        invariant log == old(log) + ClearAll(timers[..i])
      {
        assert ClearAll(timers[..i + 1]) == ClearAll(timers[..i]) + [ClearInterval(timers[i])];
        Emit(ClearInterval(timers[i]));
      }
      assert timers[..|timers|] == timers;
    }

    /** `removeTorrent`: destroy the torrent, then delete its folder. The
        callback passed in client.js is always `undefined`, so nothing follows. */
    method RemoveTorrent(infoHash: string, path: string)
      requires Valid()
      modifies this
      ensures Valid()
      ensures history == old(history) && queue == old(queue)
      ensures log == old(log) + [Destroy(infoHash), DeleteFolder(path)]
    {
      Emit(Destroy(infoHash));
      Emit(DeleteFolder(path));
    }

    /** `handleFeedItems(feedItems)`: appends the batch and sorts the queue by
        publication date. The comparator returns a boolean, so the order is up
        to the engine; the queue is left in concatenation order here and only
        the permutation is promised. */
    method HandleFeedItems(items: seq<Item>)
      modifies this
      ensures multiset(queue) == multiset(old(queue)) + multiset(items)
      ensures |queue| == |old(queue)| + |items|
      ensures history == old(history) && log == old(log)
    {
      queue := queue + items;
    }

    /** One ingestion cycle: skipped entirely while more than ten items are
        queued; otherwise every batch (one per feed, one from the scraper) is
        handed to `handleFeedItems`. */
    method IngestionCycle(batches: seq<seq<Item>>) returns (skipped: bool)
      modifies this
      ensures skipped <==> |old(queue)| > MaxItemsInQueueForFetching
      ensures skipped ==> queue == old(queue)
      ensures !skipped ==> multiset(queue) == multiset(old(queue)) + multiset(Concat(batches))
      ensures !skipped ==> |queue| == |old(queue)| + |Concat(batches)|
      ensures history == old(history) && log == old(log)
    {
      if |queue| > MaxItemsInQueueForFetching {
        return true;
      }
      skipped := false;
      for i := 0 to |batches|
        invariant multiset(queue) == multiset(old(queue)) + multiset(Concat(batches[..i]))
        invariant |queue| == |old(queue)| + |Concat(batches[..i])|
        invariant history == old(history) && log == old(log)
      {
        assert batches[..i + 1][..i] == batches[..i];
        HandleFeedItems(batches[i]);
      }
      assert batches[..|batches|] == batches;
    }

    /** The admission of one entry: resolve the magnet, discard a missing one,
        skip one already in history, otherwise record it and only then hand it
        to the engine. */
    method AdmitEntry(item: Item, location: Option<string>) returns (a: EntryOutcome)
      requires Valid()
      modifies this`history, this`log
      ensures Valid()
      ensures ResolveMagnet(item.link, location).None? ==>
        a == Discarded && history == old(history) && log == old(log)
      ensures ResolveMagnet(item.link, location).Some? && History.Contains(old(history), ResolveMagnet(item.link, location).value) ==>
        a == InHistory(ResolveMagnet(item.link, location).value) && history == old(history) && log == old(log)
      ensures ResolveMagnet(item.link, location).Some? && !History.Contains(old(history), ResolveMagnet(item.link, location).value) ==>
        var m := ResolveMagnet(item.link, location).value;
        a == Added(m) && history == History.Set(old(history), m, "magnet")
        && log == old(log) + [Recorded(m, "magnet"), EngineAdd(m)]
      ensures a == Admit(ResolveMagnet(item.link, location), old(history))
      ensures history == if a.Added? then History.Set(old(history), a.magnet, "magnet") else old(history)
      ensures log == old(log) + if a.Added? then [Recorded(a.magnet, "magnet"), EngineAdd(a.magnet)] else []
      ensures old(history).Keys <= history.Keys
      ensures Admitted(a, ResolveMagnet(item.link, location), history)
      ensures a.Added? ==> a.magnet !in old(history)
    {
      var magnet: string;
      if IsMagnetLink(item.link) {
        magnet := item.link;
      } else {
        if location.None? {
          return Discarded;
        }
        magnet := location.value;
      }
      if History.Contains(history, magnet) {
        return InHistory(magnet);
      }
      Record(magnet, "magnet");
      Emit(EngineAdd(magnet));
      a := Added(magnet);
    }

    /** The synchronous part of every admission callback: a magnet link is
        looked up in the history at once, while an entry with another link
        only starts its request. `found` holds the outcomes of the magnet
        links at their positions (`Discarded` stands at the others') and
        `missed` the magnet links not in the history, in queue order. */
    method LookUpMagnetLinks(admitted: seq<Item>) returns (found: seq<EntryOutcome>, missed: seq<string>)
      ensures |found| == |admitted|
      ensures Among(admitted, found, true) == LookUps(Links(ItemsAmong(admitted, true)), history)
      ensures missed == AddedMagnets(Among(admitted, found, true))
    {
      found, missed := [], [];
      for i := 0 to |admitted|
        invariant |found| == i
        invariant Among(admitted[..i], found, true) == LookUps(Links(ItemsAmong(admitted[..i], true)), history)
        invariant missed == AddedMagnets(Among(admitted[..i], found, true))
      {
        var item := admitted[i];
        assert admitted[..i + 1] == admitted[..i] + [item];
        var a := if IsMagnetLink(item.link) then Admit(Some(item.link), history) else Discarded;
        LookUpStep(admitted[..i], found, missed, item, a, history);
        if IsMagnetLink(item.link) && a.Added? {
          missed := missed + [item.link];
        }
        found := found + [a];
      }
      assert admitted[..|admitted|] == admitted;
    }

    /** The callbacks of the new magnet links going on, in queue order: each
        records its magnet, and in the round after that each hands it to the
        engine. */
    method RecordThenAdd(missed: seq<string>)
      requires Valid()
      modifies this`history, this`log
      ensures Valid()
      ensures history == RecordAll(old(history), missed)
      ensures log == old(log) + RecordEach(missed) + AddEach(missed)
    {
      RecordMissed(missed);
      RecordAllTagged(old(history), missed);
      assert forall k :: 0 <= k < |missed| ==> missed[k] in Elements(missed);
      AddMissed(missed);
    }

    /** The first round: each new magnet link is recorded. */
    method RecordMissed(missed: seq<string>)
      requires Valid()
      modifies this`history, this`log
      ensures Valid()
      ensures history == RecordAll(old(history), missed)
      ensures log == old(log) + RecordEach(missed)
    {
      for i := 0 to |missed|
        invariant Valid()
        invariant history == RecordAll(old(history), missed[..i])
        invariant log == old(log) + RecordEach(missed[..i])
      {
        assert missed[..i + 1][..i] == missed[..i];
        Record(missed[i], "magnet");
      }
      assert missed[..|missed|] == missed;
    }

    /** The next round: each recorded magnet is handed to the engine. */
    method AddMissed(missed: seq<string>)
      requires Valid()
      requires forall k :: 0 <= k < |missed| ==> History.Contains(history, missed[k])
      modifies this`log
      ensures Valid()
      ensures log == old(log) + AddEach(missed)
    {
      for i := 0 to |missed|
        invariant Valid()
        invariant log == old(log) + AddEach(missed[..i])
      {
        assert missed[..i + 1][..i] == missed[..i];
        Emit(EngineAdd(missed[i]));
      }
      assert missed[..|missed|] == missed;
    }

    /** `currentDownloads.forEach(async item => ...)`, run as `AdmittedAsRun`
        says: the magnet links first, then the redirected entries. */
    method AdmitAll(admitted: seq<Item>, redirect: string -> Option<string>) returns (outcomes: seq<EntryOutcome>)
      requires Valid()
      modifies this`history, this`log
      ensures Valid()
      ensures AdmittedAsRun(admitted, redirect, outcomes, old(history), history, old(log), log)
      ensures forall i :: 0 <= i < |admitted| ==> Admitted(outcomes[i], ResolveMagnet(admitted[i].link, redirect(admitted[i].link)), history)
      ensures forall i :: 0 <= i < |outcomes| && outcomes[i].Added? ==> outcomes[i].magnet !in old(history)
      ensures history == old(history) + Tagged(Elements(AddedMagnets(Among(admitted, outcomes, true))) + Elements(AddedMagnets(Among(admitted, outcomes, false))))
      ensures old(history).Keys <= history.Keys
      ensures log == old(log) + RecordEach(AddedMagnets(Among(admitted, outcomes, true))) + AddEach(AddedMagnets(Among(admitted, outcomes, true)))
                     + SerialEffects(AddedMagnets(Among(admitted, outcomes, false)))
    {
      ghost var h0 := history;
      var found, missed := LookUpMagnetLinks(admitted);
      RecordThenAdd(missed);
      outcomes := AdmitRedirected(admitted, found, redirect);
      AdmittedAsRunHistory(admitted, redirect, outcomes, h0, history, old(log), log);
      AdmittedAsRunOutcomes(admitted, redirect, outcomes, h0, history, old(log), log);
    }

    /** The entries of the tick in queue order, once the magnet links are
        settled (`found` holds their outcomes): a magnet link keeps its
        outcome, and each other entry goes on as its request answers. */
    method AdmitRedirected(admitted: seq<Item>, found: seq<EntryOutcome>, redirect: string -> Option<string>)
      returns (outcomes: seq<EntryOutcome>)
      requires Valid() && |found| == |admitted|
      modifies this`history, this`log
      ensures Valid()
      ensures |outcomes| == |admitted|
      ensures Among(admitted, outcomes, true) == Among(admitted, found, true)
      ensures (Among(admitted, outcomes, false), history) == SerialRun(Resolutions(ItemsAmong(admitted, false), redirect), old(history))
      ensures log == old(log) + SerialEffects(AddedMagnets(Among(admitted, outcomes, false)))
    {
      outcomes := [];
      for i := 0 to |admitted|
        invariant Valid()
        invariant |outcomes| == i
        invariant Among(admitted[..i], outcomes, true) == Among(admitted[..i], found[..i], true)
        invariant (Among(admitted[..i], outcomes, false), history) == SerialRun(Resolutions(ItemsAmong(admitted[..i], false), redirect), old(history))
        invariant log == old(log) + SerialEffects(AddedMagnets(Among(admitted[..i], outcomes, false)))
      {
        var item := admitted[i];
        assert admitted[..i + 1] == admitted[..i] + [item];
        assert found[..i + 1] == found[..i] + [found[i]];
        ghost var h, l := history, log;
        var a := found[i];
        if !IsMagnetLink(item.link) {
          a := AdmitEntry(item, redirect(item.link));
        }
        RedirectStep(admitted[..i], outcomes, found[..i], item, a, found[i], redirect, old(history), h, old(log), l, history, log);
        outcomes := outcomes + [a];
      }
      assert admitted[..|admitted|] == admitted && found[..|found|] == found;
    }

    /** One `queueLoop` tick: split the queue at the number of free slots and
        admit the leading entries. `torrents` are the engine's torrents;
        `redirect` gives the Location header the request for a non-magnet
        link answers with. */
    method AdmissionTick(cfg: Config, torrents: seq<TorrentStatus>, redirect: string -> Option<string>)
      returns (admitted: seq<Item>, outcomes: seq<EntryOutcome>)
      requires Valid()
      modifies this
      ensures Valid()
      ensures (admitted, queue) == AdmissionSplit(old(queue), cfg.maxSimultaneousDownloads - |TorrentsInProgress(torrents)|)
      ensures AdmittedAsRun(admitted, redirect, outcomes, old(history), history, old(log), log)
      ensures forall i :: 0 <= i < |admitted| ==> Admitted(outcomes[i], ResolveMagnet(admitted[i].link, redirect(admitted[i].link)), history)
      ensures forall i :: 0 <= i < |outcomes| && outcomes[i].Added? ==> outcomes[i].magnet !in old(history)
      ensures history == old(history) + Tagged(Elements(AddedMagnets(Among(admitted, outcomes, true))) + Elements(AddedMagnets(Among(admitted, outcomes, false))))
      ensures old(history).Keys <= history.Keys
      ensures log == old(log) + RecordEach(AddedMagnets(Among(admitted, outcomes, true))) + AddEach(AddedMagnets(Among(admitted, outcomes, true)))
                     + SerialEffects(AddedMagnets(Among(admitted, outcomes, false)))
    {
      var split := AdmissionSplit(queue, cfg.maxSimultaneousDownloads - |TorrentsInProgress(torrents)|);
      admitted := split.0;
      queue := split.1;
      assert (admitted, queue) == AdmissionSplit(old(queue), cfg.maxSimultaneousDownloads - |TorrentsInProgress(torrents)|);
      outcomes := AdmitAll(admitted, redirect);
    }

    /** What the history check is evidently there for: the entries admitted
        one after another, each callback finding the magnets of the entries
        before it recorded (as a `for ... of` loop with `await` would run
        them). No magnet is then handed to the engine twice. */
    method AdmitSerially(admitted: seq<Item>, redirect: string -> Option<string>) returns (outcomes: seq<EntryOutcome>)
      requires Valid()
      modifies this`history, this`log
      ensures Valid()
      ensures (outcomes, history) == SerialRun(Resolutions(admitted, redirect), old(history))
      ensures log == old(log) + SerialEffects(AddedMagnets(outcomes))
      ensures |outcomes| == |admitted|
      ensures forall i :: 0 <= i < |admitted| ==> Admitted(outcomes[i], ResolveMagnet(admitted[i].link, redirect(admitted[i].link)), history)
      ensures forall i :: 0 <= i < |outcomes| && outcomes[i].Added? ==> outcomes[i].magnet !in old(history)
      ensures forall i, j :: 0 <= i < j < |outcomes| && outcomes[i].Added? && outcomes[j].Added? ==>
        outcomes[i].magnet != outcomes[j].magnet
      ensures old(history).Keys <= history.Keys
    {
      outcomes := [];
      for i := 0 to |admitted|
        invariant Valid()
        invariant |outcomes| == i
        invariant (outcomes, history) == SerialRun(Resolutions(admitted[..i], redirect), old(history))
        invariant log == old(log) + SerialEffects(AddedMagnets(outcomes))
      {
        var item := admitted[i];
        assert admitted[..i + 1] == admitted[..i] + [item];
        ResolutionsSnoc(admitted[..i], item, redirect);
        ghost var h, l := history, log;
        var a := AdmitEntry(item, redirect(item.link));
        SerialStep(Resolutions(admitted[..i], redirect), ResolveMagnet(item.link, redirect(item.link)),
                   old(history), outcomes, h, old(log), l, a, history, log);
        outcomes := outcomes + [a];
      }
      assert admitted[..|admitted|] == admitted;
      SerialAdmission(admitted, redirect, old(history));
    }
  }

  class Session {
    const magnet: string
    const infoHash: string
    const name: string
    const path: string
    /** The id of this torrent's `checkerLoop` interval. */
    const timer: nat
    const createdAt: int
    var uploadedToDrive: Option<bool>
    var downloadFinishedAt: Option<int>
    var initialCheckDone: bool
    /** The `checkerLoop` interval has not been cleared. */
    var ticking: bool

    /** The `torrentClient.add` callback: the torrent arrives and gets its fields. */
    constructor (magnet: string, infoHash: string, name: string, path: string, timer: nat, now: int)
      ensures this.magnet == magnet && this.infoHash == infoHash && this.name == name
      ensures this.path == path && this.timer == timer && createdAt == now
      ensures uploadedToDrive == None && downloadFinishedAt == None
      ensures !initialCheckDone && ticking
    {
      this.magnet := magnet;
      this.infoHash := infoHash;
      this.name := name;
      this.path := path;
      this.timer := timer;
      createdAt := now;
      uploadedToDrive := None;
      downloadFinishedAt := None;
      initialCheckDone := false;
      ticking := true;
    }

    function FieldsOf(): Fields
      reads this
    {
      Fields(createdAt, uploadedToDrive, downloadFinishedAt, initialCheckDone)
    }

    /** The history after recording the magnet and the info hash. */
    function WithPair(h: History.Store): History.Store
    {
      History.Set(History.Set(h, magnet, "magnet"), infoHash, "infoHash")
    }

    method RecordPair(o: Orchestrator)
      requires o.Valid()
      modifies o
      ensures o.Valid() && o.queue == old(o.queue)
      ensures o.history == WithPair(old(o.history))
      ensures o.log == old(o.log) + RecordPairs(magnet, infoHash, 1)
    {
      o.Record(magnet, "magnet");
      o.Record(infoHash, "infoHash");
    }

    /** `removeTorrent(torrent, item, reason, afterRemove([checkerLoop]))`. */
    method Remove(o: Orchestrator)
      requires o.Valid()
      modifies this, o
      ensures o.Valid() && o.queue == old(o.queue) && o.history == old(o.history)
      ensures o.log == old(o.log) + RetirementEffects(timer, infoHash, path)
      ensures FieldsOf() == old(FieldsOf()) && !ticking
    {
      o.AfterRemove([timer]);
      o.RemoveTorrent(infoHash, path);
      ticking := false;
    }

    /** The first tick's lookup of the info hash: marks the check done before
        looking; a hit retires, a miss records the magnet and the info hash. */
    method InitialCheck(o: Orchestrator) returns (hit: bool)
      requires o.Valid() && !initialCheckDone
      modifies this, o
      ensures o.Valid() && o.queue == old(o.queue)
      ensures hit == History.Contains(old(o.history), infoHash)
      ensures FieldsOf() == old(FieldsOf()).(initialCheckDone := true)
      ensures hit ==> o.history == old(o.history) && !ticking
                      && o.log == old(o.log) + RetirementEffects(timer, infoHash, path)
      ensures !hit ==> o.history == WithPair(old(o.history)) && ticking == old(ticking)
                       && o.log == old(o.log) + RecordPairs(magnet, infoHash, 1)
    {
      initialCheckDone := true;
      hit := History.Contains(o.history, infoHash);
      if hit {
        Remove(o);
      } else {
        RecordPair(o);
      }
    }

    /** The Drive probe while `uploadedToDrive` is null: a found folder records
        the magnet and the info hash and retires; otherwise it becomes false. */
    method ProbeDrive(o: Orchestrator, found: bool)
      requires o.Valid() && uploadedToDrive.None?
      modifies this, o
      ensures o.Valid() && o.queue == old(o.queue)
      ensures FieldsOf() == old(FieldsOf()).(uploadedToDrive := Some(found))
      ensures found ==> o.history == WithPair(old(o.history)) && !ticking
                        && o.log == old(o.log) + RecordPairs(magnet, infoHash, 1) + RetirementEffects(timer, infoHash, path)
      ensures !found ==> o.history == old(o.history) && o.log == old(o.log) && ticking == old(ticking)
    {
      uploadedToDrive := Some(found);
      if found {
        RecordPair(o);
        Remove(o);
      }
    }

    /** The stall, ratio and seeding-time checks. */
    method SuperviseTorrent(o: Orchestrator, cfg: Config, now: int, m: Metrics) returns (r: TickResult)
      requires o.Valid()
      modifies this, o
      ensures o.Valid() && o.queue == old(o.queue) && o.history == old(o.history)
      ensures r == Supervise(old(FieldsOf()), m, now, cfg)
      ensures FieldsOf() == old(FieldsOf())
      ensures o.log == old(o.log) + (if r.Retire? then RetirementEffects(timer, infoHash, path) else [])
      ensures ticking == if r.Retire? then false else old(ticking)
    {
      if !m.complete && m.downloadSpeed < cfg.minDownloadThresholdBytesPerSecond {
        if ElapsedExceeds(now, createdAt, cfg.maxOldnessSecondsWithoutPeers) {
          r := Retire(NoPeers);
          Remove(o);
          return;
        }
        // otherwise only a warning that the torrent is running slow
      }
      r := Continue;
      if m.complete && uploadedToDrive == Some(true) {
        if RatioExceeded(m.uploaded, m.downloaded, cfg.maxRatio) {
          r := Retire(RatioReached);
          Remove(o);
        } else if downloadFinishedAt.Some?
                  && ElapsedExceeds(now, downloadFinishedAt.value, cfg.maxOldnessSecondsSeeding) {
          r := Retire(SeedingTimeReached);
          Remove(o);
        }
      }
    }

    /** The history after `n` recordings of the pair. */
    function WithPairs(h: History.Store, n: nat): History.Store
    {
      if n == 0 then h else WithPair(h)
    }

    /** The first-tick history check, then the Drive probe while
        `uploadedToDrive` is null, as `FirstChecks` says. */
    method RunFirstChecks(o: Orchestrator, driveHasFolder: bool) returns (r: TickResult)
      requires o.Valid() && ticking
      modifies this, o
      ensures o.Valid() && o.queue == old(o.queue)
      ensures var out := FirstChecks(old(FieldsOf()), History.Contains(old(o.history), infoHash), driveHasFolder);
        r == out.result && FieldsOf() == out.fields
        && o.history == WithPairs(old(o.history), out.pairsRecorded)
        && o.log == old(o.log) + RecordPairs(magnet, infoHash, out.pairsRecorded)
                    + (if r.Retire? then RetirementEffects(timer, infoHash, path) else [])
        && ticking == !r.Retire?
    {
      ghost var h0 := o.history;
      ghost var pairs := 0;
      if !initialCheckDone {
        var hit := InitialCheck(o);
        if hit {
          return Retire(SeenInHistory);
        }
        pairs := 1;
      }
      if uploadedToDrive.None? {
        ProbeDrive(o, driveHasFolder);
        if driveHasFolder {
          assert RecordPairs(magnet, infoHash, pairs + 1) == RecordPairs(magnet, infoHash, pairs) + RecordPairs(magnet, infoHash, 1);
          if pairs == 1 {
            History.SetPairTwice(h0, magnet, "magnet", infoHash, "infoHash");
          }
          return Retire(SeenInDrive);
        }
      }
      r := Continue;
    }

    /** One `checkerLoop` tick, given the clock, the answer the Drive probe
        gives for this torrent's name (`DriveListing.IsFolderInDrive` of the
        rclone listing; used only while `uploadedToDrive` is null) and the
        engine's metrics. It carries out `Step`: the result, the new fields,
        the history, and the calls made, in order. */
    method Tick(o: Orchestrator, cfg: Config, now: int, driveHasFolder: bool, m: Metrics) returns (r: TickResult)
      requires o.Valid() && ticking
      modifies this, o
      ensures o.Valid() && o.queue == old(o.queue)
      ensures var out := Step(old(FieldsOf()), History.Contains(old(o.history), infoHash), driveHasFolder, m, now, cfg);
        r == out.result && FieldsOf() == out.fields
        && o.history == WithPairs(old(o.history), out.pairsRecorded)
        && o.log == old(o.log) + RecordPairs(magnet, infoHash, out.pairsRecorded)
                    + (if r.Retire? then RetirementEffects(timer, infoHash, path) else [])
        && ticking == !r.Retire?
    {
      r := RunFirstChecks(o, driveHasFolder);
      if r.Continue? {
        ghost var l1 := o.log;
        r := SuperviseTorrent(o, cfg, now, m);
        assert o.log == l1 + (if r.Retire? then RetirementEffects(timer, infoHash, path) else []);
      }
    }

    /** The `done` handler: remembers when the download finished and starts the upload. */
    method OnDone(o: Orchestrator, now: int)
      requires o.Valid()
      modifies this, o
      ensures o.Valid() && o.queue == old(o.queue) && o.history == old(o.history)
      ensures o.log == old(o.log) + [StartUpload(path)]
      ensures downloadFinishedAt == Some(now)
      ensures uploadedToDrive == old(uploadedToDrive) && initialCheckDone == old(initialCheckDone)
      ensures ticking == old(ticking)
    {
      downloadFinishedAt := Some(now);
      o.Emit(StartUpload(path));
    }

    /** The upload callback: rclone has exited (whatever its exit code). */
    method OnUploadComplete()
      modifies this
      ensures uploadedToDrive == Some(true)
      ensures downloadFinishedAt == old(downloadFinishedAt) && initialCheckDone == old(initialCheckDone)
      ensures ticking == old(ticking)
    {
      uploadedToDrive := Some(true);
    }
  }
}
