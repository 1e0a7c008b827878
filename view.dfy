/**
 * The order in which renderNotes shows the notes:
 * `[...this.notes].sort((a, b) => a.order - b.order)`, a stable sort of a copy.
 */
module View {
  import opened Notes

  predicate SortedByOrder(ns: seq<Note>) {
    forall i, j | 0 <= i < j < |ns| :: ns[i].order <= ns[j].order
  }

  /** Puts `n` in front of the first note of `s` whose order is not smaller. */
  function Insert(n: Note, s: seq<Note>): seq<Note> {
    if s == [] || n.order <= s[0].order then [n] + s
    else [s[0]] + Insert(n, s[1..])
  }

  /** Inserting adds exactly `n`. */
  lemma {:induction false} InsertAddsOne(n: Note, s: seq<Note>)
    ensures multiset(Insert(n, s)) == multiset(s) + multiset{n}
  {
    if s != [] && n.order > s[0].order {
      InsertAddsOne(n, s[1..]);
      assert s == [s[0]] + s[1..];
    }
  }

  /** Every note the insertion holds is `n` or one of `s`. */
  lemma {:induction false} InsertMembers(n: Note, s: seq<Note>)
    ensures forall m | m in Insert(n, s) :: m == n || m in s
  {
    if s != [] && n.order > s[0].order {
      InsertMembers(n, s[1..]);
      assert forall m | m in s[1..] :: m in s;
    }
  }

  /** Inserting into a sorted list keeps it sorted. */
  lemma {:induction false} InsertSorted(n: Note, s: seq<Note>)
    requires SortedByOrder(s)
    ensures SortedByOrder(Insert(n, s))
  {
    var r := Insert(n, s);
    if s == [] || n.order <= s[0].order {
      forall i, j | 0 <= i < j < |r| ensures r[i].order <= r[j].order {
        assert r[j] == s[j - 1];
        if i > 0 {
          assert r[i] == s[i - 1];
        }
      }
    } else {
      var t := Insert(n, s[1..]);
      InsertSorted(n, s[1..]);
      InsertMembers(n, s[1..]);
      forall m | m in t ensures s[0].order <= m.order {
        if m != n {
          var k :| 0 <= k < |s[1..]| && s[1..][k] == m;
          assert s[k + 1] == m;
        }
      }
      forall i, j | 0 <= i < j < |r| ensures r[i].order <= r[j].order {
        assert r[j] == t[j - 1];
        if i > 0 {
          assert r[i] == t[i - 1];
        } else {
          assert t[j - 1] in t;
        }
      }
    }
  }

  /** Insertion sort on `order`; equal orders keep their list order, as JavaScript's sort does. */
  function SortByOrder(ns: seq<Note>): (r: seq<Note>)
    ensures SortedByOrder(r)
    ensures multiset(r) == multiset(ns)
  {
    if ns == [] then []
    else
      assert ns == [ns[0]] + ns[1..];
      InsertAddsOne(ns[0], SortByOrder(ns[1..]));
      InsertSorted(ns[0], SortByOrder(ns[1..]));
      Insert(ns[0], SortByOrder(ns[1..]))
  }

  /** A list already sorted by order is shown as it stands. */
  lemma {:induction false} SortByOrderOfSorted(ns: seq<Note>)
    requires SortedByOrder(ns)
    ensures SortByOrder(ns) == ns
  {
    if ns != [] {
      SortByOrderOfSorted(ns[1..]);
    }
  }

  /** With orders dense (0..n-1) the view is the list itself: the page shows the notes in list order. */
  lemma DenseViewIsList(ns: seq<Note>)
    requires DenseOrder(ns)
    ensures SortByOrder(ns) == ns
  {
    SortByOrderOfSorted(ns);
  }
}
