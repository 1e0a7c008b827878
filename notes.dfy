/**
 * The note list that NoteManager keeps in `this.notes`, and the value each
 * of its operations turns it into. The class in module Manager is proved
 * against these functions.
 */
module Notes {
  import opened Text

  datatype Option<T> = None | Some(value: T)

  /**
   * One note record `{id, content, timestamp, order}`. The id comes from
   * `Date.now()` and the timestamp from `toLocaleString()`; both are supplied
   * by the caller here.
   */
  datatype Note = Note(id: int, content: string, timestamp: string, order: int)

  function IdsOf(ns: seq<Note>): (r: seq<int>)
    ensures |r| == |ns| && forall i | 0 <= i < |ns| :: r[i] == ns[i].id
  {
    seq(|ns|, i requires 0 <= i < |ns| => ns[i].id)
  }

  predicate HasId(ns: seq<Note>, id: int) {
    exists i | 0 <= i < |ns| :: ns[i].id == id
  }

  /** Every note's `order` is its index: the ranks are exactly 0..n-1. */
  predicate DenseOrder(ns: seq<Note>) {
    forall i | 0 <= i < |ns| :: ns[i].order == i
  }

  predicate Distinct(xs: seq<int>) {
    forall i, j | 0 <= i < j < |xs| :: xs[i] != xs[j]
  }

  predicate UniqueIds(ns: seq<Note>) {
    forall i, j | 0 <= i < j < |ns| :: ns[i].id != ns[j].id
  }

  /** Every note holds content as addNote and saveEdit store it: trimmed and non-empty. */
  predicate TidyContents(ns: seq<Note>) {
    forall i | 0 <= i < |ns| :: Tidy(ns[i].content)
  }

  /** `notes.find(n => n.id === id)`, as the index of the first note with that id. */
  function IndexOfId(ns: seq<Note>, id: int): (r: Option<nat>)
    ensures r.None? <==> !HasId(ns, id)
    ensures r.Some? ==> r.value < |ns| && ns[r.value].id == id
    ensures r.Some? ==> forall j | 0 <= j < r.value :: ns[j].id != id
  {
    if ns == [] then None
    else if ns[0].id == id then Some(0)
    else
      match IndexOfId(ns[1..], id)
      case None =>
        assert forall j | 1 <= j < |ns| :: ns[j] == ns[1..][j - 1];
        None
      case Some(k) => Some(k + 1)
  }

  /** `notes.filter(note => note.id !== id)`. */
  function Without(ns: seq<Note>, id: int): (r: seq<Note>)
    ensures |r| <= |ns|
    ensures forall n | n in r :: n in ns && n.id != id
    ensures forall n | n in ns && n.id != id :: n in r
    ensures !HasId(ns, id) ==> r == ns
  {
    if ns == [] then []
    else
      assert ns == [ns[0]] + ns[1..];
      assert !HasId(ns, id) ==> !HasId(ns[1..], id) by {
        if HasId(ns[1..], id) {
          var j :| 0 <= j < |ns[1..]| && ns[1..][j].id == id;
          assert ns[j + 1].id == id;
        }
      }
      if ns[0].id == id then Without(ns[1..], id)
      else [ns[0]] + Without(ns[1..], id)
  }

  /** `updateOrder`: each note's `order` set to its index, nothing else touched. */
  function Reranked(ns: seq<Note>): (r: seq<Note>)
    ensures |r| == |ns| && DenseOrder(r) && IdsOf(r) == IdsOf(ns)
    ensures forall i | 0 <= i < |ns| ::
      r[i].content == ns[i].content && r[i].timestamp == ns[i].timestamp
    ensures DenseOrder(ns) ==> r == ns
  {
    seq(|ns|, i requires 0 <= i < |ns| => ns[i].(order := i))
  }

  /** What a successful `addNote` leaves: the new note appended with `order` the old length. */
  function Appended(ns: seq<Note>, id: int, content: string, timestamp: string): (r: seq<Note>)
    ensures |r| == |ns| + 1 && r[..|ns|] == ns
    ensures r[|ns|].id == id && r[|ns|].content == content && r[|ns|].timestamp == timestamp
    ensures r[|ns|].order == |ns|
    ensures DenseOrder(ns) ==> DenseOrder(r)
    ensures UniqueIds(ns) && !HasId(ns, id) ==> UniqueIds(r)
    ensures TidyContents(ns) && Tidy(content) ==> TidyContents(r)
  {
    ns + [Note(id, content, timestamp, |ns|)]
  }

  /** What a confirmed `deleteNote` leaves: the filter followed by `updateOrder`. */
  function Deleted(ns: seq<Note>, id: int): (r: seq<Note>)
    ensures DenseOrder(r) && !HasId(r, id)
  {
    Reranked(Without(ns, id))
  }

  /**
   * What a successful `saveEdit` leaves: the first note with the id gets the
   * new content; its id, order and timestamp and every other note stay.
   */
  function Edited(ns: seq<Note>, id: int, content: string): (r: seq<Note>)
    requires HasId(ns, id)
    ensures |r| == |ns| && IdsOf(r) == IdsOf(ns)
    ensures var k := IndexOfId(ns, id).value;
      r[k].content == content && r[k].order == ns[k].order && r[k].timestamp == ns[k].timestamp
      && forall j | 0 <= j < |ns| && j != k :: r[j] == ns[j]
  {
    var k := IndexOfId(ns, id).value;
    ns[k := ns[k].(content := content)]
  }

  /** An edit keeps dense ranks and unique ids, and keeps contents tidy when the new text is tidy. */
  lemma EditedKeepsInvariants(ns: seq<Note>, id: int, content: string)
    requires HasId(ns, id)
    ensures DenseOrder(ns) ==> DenseOrder(Edited(ns, id, content))
    ensures UniqueIds(ns) ==> UniqueIds(Edited(ns, id, content))
    ensures TidyContents(ns) && Tidy(content) ==> TidyContents(Edited(ns, id, content))
  {
    var r := Edited(ns, id, content);
    assert forall j | 0 <= j < |ns| :: r[j].id == ns[j].id && r[j].order == ns[j].order;
  }

  /**
   * What `updateNotesOrder` builds from the ids read off the page: for each
   * position `i` whose id is found, that note with `order` set to `i`; ids not
   * found are skipped, notes not listed are left out.
   */
  function Reordered(ns: seq<Note>, ids: seq<int>): (r: seq<Note>)
    ensures |r| <= |ids|
    decreases |ids|
  {
    if ids == [] then []
    else
      var i := |ids| - 1;
      Reordered(ns, ids[..i]) + (match IndexOfId(ns, ids[i]) case Some(j) => [ns[j].(order := i)] case None => [])
  }

  /** The ids are exactly those of the notes, each once. */
  predicate IsPermutationOf(ids: seq<int>, ns: seq<Note>) {
    Distinct(ids) && |ids| == |ns|
    && (forall x | x in ids :: HasId(ns, x))
    && (forall j | 0 <= j < |ns| :: ns[j].id in ids)
  }

  // ----- delete -----

  /** Filtering keeps the notes' relative order: it distributes over concatenation. */
  lemma {:induction false} WithoutAppend(a: seq<Note>, b: seq<Note>, id: int)
    ensures Without(a + b, id) == Without(a, id) + Without(b, id)
  {
    if a != [] {
      assert (a + b)[0] == a[0] && (a + b)[1..] == a[1..] + b;
      WithoutAppend(a[1..], b, id);
    } else {
      assert a + b == b;
    }
  }

  /** A note goes in front of a list with unique ids without breaking uniqueness when its id is new. */
  lemma ConsKeepsUniqueIds(x: Note, w: seq<Note>)
    requires UniqueIds(w) && forall n | n in w :: n.id != x.id
    ensures UniqueIds([x] + w)
  {
    var r := [x] + w;
    forall i, j | 0 <= i < j < |r| ensures r[i].id != r[j].id {
      assert r[j] == w[j - 1];
      if i > 0 {
        assert r[i] == w[i - 1];
      } else {
        assert r[j] in w;
      }
    }
  }

  /** Filtering out an id keeps ids unique. */
  lemma {:induction false} WithoutKeepsUniqueIds(ns: seq<Note>, id: int)
    requires UniqueIds(ns)
    ensures UniqueIds(Without(ns, id))
  {
    if ns != [] {
      var rest := ns[1..];
      assert UniqueIds(rest) by {
        forall i, j | 0 <= i < j < |rest| ensures rest[i].id != rest[j].id {
          assert rest[i] == ns[i + 1] && rest[j] == ns[j + 1];
        }
      }
      WithoutKeepsUniqueIds(rest, id);
      if ns[0].id != id {
        var w := Without(rest, id);
        forall n | n in w ensures n.id != ns[0].id {
          var m :| 0 <= m < |rest| && rest[m] == n;
          assert ns[m + 1] == n;
        }
        ConsKeepsUniqueIds(ns[0], w);
      }
    }
  }

  /** Filtering out an id keeps every content tidy. */
  lemma WithoutKeepsTidyContents(ns: seq<Note>, id: int)
    requires TidyContents(ns)
    ensures TidyContents(Without(ns, id))
  {
    var w := Without(ns, id);
    forall i | 0 <= i < |w| ensures Tidy(w[i].content) {
      assert w[i] in ns;
    }
  }

  /**
   * A confirmed delete removes every note with the id, keeps the others,
   * ranks the survivors 0..n-1, and keeps ids unique and contents tidy.
   */
  lemma DeletedSpec(ns: seq<Note>, id: int)
    ensures DenseOrder(Deleted(ns, id)) && !HasId(Deleted(ns, id), id)
    ensures IdsOf(Deleted(ns, id)) == IdsOf(Without(ns, id))
    ensures forall n | n in ns && n.id != id :: exists k | 0 <= k < |Deleted(ns, id)| :: Deleted(ns, id)[k] == n.(order := k)
    ensures UniqueIds(ns) ==> UniqueIds(Deleted(ns, id))
    ensures TidyContents(ns) ==> TidyContents(Deleted(ns, id))
  {
    var w := Without(ns, id);
    var r := Deleted(ns, id);
    forall n | n in ns && n.id != id
      ensures exists k | 0 <= k < |r| :: r[k] == n.(order := k)
    {
      var k :| 0 <= k < |w| && w[k] == n;
      assert r[k] == n.(order := k);
    }
    if UniqueIds(ns) {
      WithoutKeepsUniqueIds(ns, id);
    }
    if TidyContents(ns) {
      WithoutKeepsTidyContents(ns, id);
    }
  }

  /** Deleting an id that is absent only re-ranks: a dense list comes back unchanged. */
  lemma DeleteAbsent(ns: seq<Note>, id: int)
    requires !HasId(ns, id)
    ensures Deleted(ns, id) == Reranked(ns)
    ensures DenseOrder(ns) ==> Deleted(ns, id) == ns
  {
  }

  /** A second delete of the same id changes nothing. */
  lemma DeleteIdempotent(ns: seq<Note>, id: int)
    ensures Deleted(Deleted(ns, id), id) == Deleted(ns, id)
  {
    DeleteAbsent(Deleted(ns, id), id);
  }

  // ----- reorder -----

  /** `n` is a note of `ns` found under the id at page position `n.order` and stamped with it. */
  predicate StampedFrom(ns: seq<Note>, ids: seq<int>, n: Note) {
    0 <= n.order < |ids| && n.id == ids[n.order]
    && IndexOfId(ns, ids[n.order]).Some?
    && n == ns[IndexOfId(ns, ids[n.order]).value].(order := n.order)
  }

  /**
   * Every note `updateNotesOrder` keeps is a found note stamped with the page
   * position of its id, and the page order is kept: the stamped positions
   * increase strictly. In particular a note whose id is not listed is dropped.
   */
  lemma {:induction false} ReorderedEntries(ns: seq<Note>, ids: seq<int>)
    ensures forall k | 0 <= k < |Reordered(ns, ids)| :: StampedFrom(ns, ids, Reordered(ns, ids)[k])
    ensures forall k, l | 0 <= k < l < |Reordered(ns, ids)| ::
      Reordered(ns, ids)[k].order < Reordered(ns, ids)[l].order
    decreases |ids|
  {
    if ids != [] {
      var i := |ids| - 1;
      var pre := ids[..i];
      ReorderedEntries(ns, pre);
      var p := Reordered(ns, pre);
      var r := Reordered(ns, ids);
      assert r[..|p|] == p;
      forall k | 0 <= k < |p| ensures StampedFrom(ns, ids, p[k]) && p[k].order < i {
        assert StampedFrom(ns, pre, p[k]);
        assert pre[p[k].order] == ids[p[k].order];
      }
    }
  }

  /** When every listed id is found, the result follows the list exactly and is ranked 0..n-1. */
  lemma {:induction false} ReorderedAllFound(ns: seq<Note>, ids: seq<int>)
    requires forall i | 0 <= i < |ids| :: HasId(ns, ids[i])
    ensures |Reordered(ns, ids)| == |ids|
    ensures forall k | 0 <= k < |ids| ::
      Reordered(ns, ids)[k] == ns[IndexOfId(ns, ids[k]).value].(order := k)
    decreases |ids|
  {
    if ids != [] {
      var i := |ids| - 1;
      var pre := ids[..i];
      assert forall k | 0 <= k < |pre| :: HasId(ns, pre[k]) by {
        forall k | 0 <= k < |pre| ensures HasId(ns, pre[k]) {
          assert pre[k] == ids[k];
        }
      }
      ReorderedAllFound(ns, pre);
      var p := Reordered(ns, pre);
      assert HasId(ns, ids[i]);
      var j := IndexOfId(ns, ids[i]).value;
      var r := Reordered(ns, ids);
      assert r == p + [ns[j].(order := i)];
      forall k | 0 <= k < |ids| ensures r[k] == ns[IndexOfId(ns, ids[k]).value].(order := k) {
        if k < i {
          assert r[k] == p[k] && pre[k] == ids[k];
        }
      }
    }
  }

  /** Every found id keeps its note, stamped with the id's page position, stale ids elsewhere or not. */
  lemma {:induction false} ReorderedKeepsFound(ns: seq<Note>, ids: seq<int>, i: int)
    requires 0 <= i < |ids| && HasId(ns, ids[i])
    ensures ns[IndexOfId(ns, ids[i]).value].(order := i) in Reordered(ns, ids)
    decreases |ids|
  {
    var last := |ids| - 1;
    var pre := ids[..last];
    if i < last {
      assert pre[i] == ids[i];
      ReorderedKeepsFound(ns, pre, i);
    }
    assert Reordered(ns, ids) == Reordered(ns, pre)
      + (match IndexOfId(ns, ids[last]) case Some(j) => [ns[j].(order := last)] case None => []);
  }

  /** Distinct page ids give distinct note ids. */
  lemma ReorderedKeepsUniqueIds(ns: seq<Note>, ids: seq<int>)
    requires Distinct(ids)
    ensures UniqueIds(Reordered(ns, ids))
  {
    ReorderedEntries(ns, ids);
    var r := Reordered(ns, ids);
    forall k, l | 0 <= k < l < |r| ensures r[k].id != r[l].id {
      assert StampedFrom(ns, ids, r[k]) && StampedFrom(ns, ids, r[l]);
    }
  }

  /** Reordering only restamps `order`, so tidy contents stay tidy. */
  lemma ReorderedKeepsTidyContents(ns: seq<Note>, ids: seq<int>)
    requires TidyContents(ns)
    ensures TidyContents(Reordered(ns, ids))
  {
    ReorderedEntries(ns, ids);
    var r := Reordered(ns, ids);
    forall k | 0 <= k < |r| ensures Tidy(r[k].content) {
      assert StampedFrom(ns, ids, r[k]);
    }
  }

  /**
   * A stale id followed by a found one leaves a gap: the stale id's page
   * position is used up, nothing is stamped with it, and the ranks are not 0..n-1.
   */
  lemma ReorderedStaleIdBreaksDensity(ns: seq<Note>, ids: seq<int>, i: int, j: int)
    requires 0 <= i < j < |ids|
    requires !HasId(ns, ids[i]) && HasId(ns, ids[j])
    ensures !DenseOrder(Reordered(ns, ids))
  {
    var r := Reordered(ns, ids);
    ReorderedEntries(ns, ids);
    ReorderedKeepsFound(ns, ids, j);
    var k :| 0 <= k < |r| && r[k] == ns[IndexOfId(ns, ids[j]).value].(order := j);
    if k != j {
      assert r[k].order != k;
    } else {
      assert StampedFrom(ns, ids, r[i]);
      assert r[i].order != i;
    }
  }

  /** With every listed id found, the rebuilt entry at `k` is the note with `ids[k]`, ranked `k`. */
  lemma ReorderedListedFound(ns: seq<Note>, ids: seq<int>)
    requires IsPermutationOf(ids, ns)
    ensures |Reordered(ns, ids)| == |ns|
    ensures forall k | 0 <= k < |ns| ::
      Reordered(ns, ids)[k] == ns[IndexOfId(ns, ids[k]).value].(order := k) && Reordered(ns, ids)[k].id == ids[k]
  {
    forall i | 0 <= i < |ids| ensures HasId(ns, ids[i]) {
      assert ids[i] in ids;
    }
    ReorderedAllFound(ns, ids);
  }

  /** The set of ids the notes carry. */
  function IdSet(ns: seq<Note>): (r: set<int>)
    ensures forall j | 0 <= j < |ns| :: ns[j].id in r
    ensures forall x | x in r :: HasId(ns, x)
  {
    if ns == [] then {}
    else
      var t := IdSet(ns[1..]);
      assert forall x | x in t :: HasId(ns, x) by {
        forall x | x in t ensures HasId(ns, x) {
          var j :| 0 <= j < |ns[1..]| && ns[1..][j].id == x;
          assert ns[j + 1].id == x;
        }
      }
      assert forall j | 1 <= j < |ns| :: ns[j] == ns[1..][j - 1];
      {ns[0].id} + t
  }

  /** The notes carry at most as many ids as there are notes, and fewer when two share one. */
  lemma {:induction false} IdSetSize(ns: seq<Note>)
    ensures |IdSet(ns)| <= |ns|
    ensures !UniqueIds(ns) ==> |IdSet(ns)| < |ns|
  {
    if ns != [] {
      var t := ns[1..];
      IdSetSize(t);
      assert IdSet(ns) == {ns[0].id} + IdSet(t);
      if ns[0].id !in IdSet(t) && !UniqueIds(ns) {
        var a, b :| 0 <= a < b < |ns| && ns[a].id == ns[b].id;
        assert ns[b] == t[b - 1];
        assert a != 0;
        assert t[a - 1].id == t[b - 1].id;
      }
    }
  }

  /** A list of distinct ids has as many elements as entries. */
  lemma {:induction false} DistinctSize(xs: seq<int>)
    requires Distinct(xs)
    ensures |set x | x in xs| == |xs|
  {
    if xs != [] {
      var t := xs[1..];
      assert Distinct(t) by {
        forall i, j | 0 <= i < j < |t| ensures t[i] != t[j] {
          assert t[i] == xs[i + 1] && t[j] == xs[j + 1];
        }
      }
      DistinctSize(t);
      assert (set x | x in xs) == {xs[0]} + (set x | x in t) by {
        assert xs == [xs[0]] + t;
      }
      assert xs[0] !in t by {
        forall i | 0 <= i < |t| ensures t[i] != xs[0] {
          assert t[i] == xs[i + 1];
        }
      }
    }
  }

  /** Page ids that are a permutation of the notes' ids force the notes' ids to be unique. */
  lemma PermutationHasUniqueIds(ids: seq<int>, ns: seq<Note>)
    requires IsPermutationOf(ids, ns)
    ensures UniqueIds(ns)
  {
    IdSetSize(ns);
    DistinctSize(ids);
    assert IdSet(ns) == set x | x in ids by {
      forall x | x in ids ensures x in IdSet(ns) {
        var j :| 0 <= j < |ns| && ns[j].id == x;
      }
      forall x | x in IdSet(ns) ensures x in ids {
        var j :| 0 <= j < |ns| && ns[j].id == x;
      }
    }
  }

  /** Under a permutation of the ids, every note reappears, ranked by the position of its id. */
  lemma PermutedNotesKept(ns: seq<Note>, ids: seq<int>)
    requires IsPermutationOf(ids, ns)
    ensures |Reordered(ns, ids)| == |ns|
    ensures forall j | 0 <= j < |ns| ::
      exists k | 0 <= k < |ns| :: Reordered(ns, ids)[k] == ns[j].(order := k)
  {
    PermutationHasUniqueIds(ids, ns);
    ReorderedListedFound(ns, ids);
    var r := Reordered(ns, ids);
    forall j | 0 <= j < |ns| ensures exists k | 0 <= k < |ns| :: r[k] == ns[j].(order := k) {
      var k :| 0 <= k < |ids| && ids[k] == ns[j].id;
      var m := IndexOfId(ns, ids[k]).value;
      assert ns[m].id == ns[j].id;
      assert r[k] == ns[j].(order := k);
    }
  }

  /**
   * Given a permutation of the current ids, `updateNotesOrder` yields the
   * same notes, in exactly the order listed, with `order == index`.
   */
  lemma ReorderedPermutation(ns: seq<Note>, ids: seq<int>)
    requires IsPermutationOf(ids, ns)
    ensures |Reordered(ns, ids)| == |ns|
    ensures DenseOrder(Reordered(ns, ids)) && UniqueIds(Reordered(ns, ids))
    ensures IdsOf(Reordered(ns, ids)) == ids
    ensures forall j | 0 <= j < |ns| ::
      exists k | 0 <= k < |ns| :: Reordered(ns, ids)[k] == ns[j].(order := k)
    ensures forall k | 0 <= k < |ns| ::
      exists j | 0 <= j < |ns| :: Reordered(ns, ids)[k] == ns[j].(order := k)
  {
    PermutedNotesKept(ns, ids);
    ReorderedListedFound(ns, ids);
    var r := Reordered(ns, ids);
    assert IdsOf(r) == ids;
    assert UniqueIds(r) by {
      forall k, l | 0 <= k < l < |r| ensures r[k].id != r[l].id {
        assert r[k].id == ids[k] && r[l].id == ids[l];
      }
    }
    forall k | 0 <= k < |ns| ensures exists j | 0 <= j < |ns| :: r[k] == ns[j].(order := k) {
      var j := IndexOfId(ns, ids[k]).value;
      assert r[k] == ns[j].(order := k);
    }
  }

  /** A note whose id is not listed on the page is dropped from the list. */
  lemma ReorderedDropsUnlisted(ns: seq<Note>, ids: seq<int>, id: int)
    requires id !in ids
    ensures !HasId(Reordered(ns, ids), id)
  {
    ReorderedEntries(ns, ids);
    var r := Reordered(ns, ids);
    forall k | 0 <= k < |r| ensures r[k].id != id {
      assert StampedFrom(ns, ids, r[k]);
      assert ids[r[k].order] in ids;
    }
  }
}
