/** Agreement between the page tags and the lists that claim to hold the pages. */
module KvOwnership {
  import opened Core
  import opened Counting
  import opened KvState

  datatype Holding = Holding(id: uint64, pages: seq<nat>)

  ghost predicate UniqueIds(hs: seq<Holding>) {
    forall i, j :: 0 <= i < j < |hs| ==> hs[i].id != hs[j].id
  }

  ghost predicate HeldBy(hs: seq<Holding>, id: uint64, p: nat) {
    exists i :: 0 <= i < |hs| && hs[i].id == id && p in hs[i].pages
  }

  /** The pages in state `st` are exactly the pages of `hs`, each listed once, by its owner. */
  ghost predicate Owned(pages: seq<Page>, st: PageState, hs: seq<Holding>) {
    && UniqueIds(hs)
    && (forall i :: 0 <= i < |hs| ==> Distinct(hs[i].pages))
    && (forall i :: 0 <= i < |hs| ==> AllTagged(pages, hs[i].pages, Page(st, hs[i].id)))
    && (forall p :: 0 <= p < |pages| && pages[p].state == st ==> HeldBy(hs, pages[p].owner, p))
  }

  /** None of the listed pages is in state `st`. */
  ghost predicate Outside(pages: seq<Page>, st: PageState, ids: seq<nat>) {
    forall k :: 0 <= k < |ids| ==> ids[k] < |pages| && pages[ids[k]].state != st
  }

  lemma OwnedElsewhere(pages: seq<Page>, st: PageState, hs: seq<Holding>, ids: seq<nat>, v: Page)
    requires Owned(pages, st, hs) && v.state != st && Outside(pages, st, ids)
    ensures Owned(Paint(pages, ids, v), st, hs)
  {
  }

  lemma OwnedEmptied(pages: seq<Page>, st: PageState, hs: seq<Holding>, i: nat, v: Page)
    requires Owned(pages, st, hs) && i < |hs| && v.state != st
    ensures Owned(Paint(pages, hs[i].pages, v), st, hs[i := Holding(hs[i].id, [])])
  {
    var after := Paint(pages, hs[i].pages, v);
    var hs' := hs[i := Holding(hs[i].id, [])];
    forall p | 0 <= p < |after| && after[p].state == st ensures HeldBy(hs', after[p].owner, p) {
      var j :| 0 <= j < |hs| && hs[j].id == pages[p].owner && p in hs[j].pages;
      assert hs'[j].id == after[p].owner && p in hs'[j].pages;
    }
  }

  lemma OwnedReleased(pages: seq<Page>, st: PageState, hs: seq<Holding>, i: nat, v: Page)
    requires Owned(pages, st, hs) && i < |hs| && v.state != st
    ensures Owned(Paint(pages, hs[i].pages, v), st, RemoveAt(hs, i))
  {
    var after := Paint(pages, hs[i].pages, v);
    var hs' := RemoveAt(hs, i);
    forall p | 0 <= p < |after| && after[p].state == st ensures HeldBy(hs', after[p].owner, p) {
      var j :| 0 <= j < |hs| && hs[j].id == pages[p].owner && p in hs[j].pages;
      var j' := if j < i then j else j - 1;
      assert hs'[j'] == hs[j];
    }
  }

  lemma OwnedExtended(pages: seq<Page>, st: PageState, hs: seq<Holding>, i: nat, ids: seq<nat>)
    requires Owned(pages, st, hs) && i < |hs| && Outside(pages, st, ids) && Distinct(ids)
    ensures Owned(Paint(pages, ids, Page(st, hs[i].id)), st, hs[i := Holding(hs[i].id, hs[i].pages + ids)])
  {
    var after := Paint(pages, ids, Page(st, hs[i].id));
    var hs' := hs[i := Holding(hs[i].id, hs[i].pages + ids)];
    forall p | 0 <= p < |after| && after[p].state == st ensures HeldBy(hs', after[p].owner, p) {
      if p in ids {
        assert p in hs'[i].pages;
      } else {
        var j :| 0 <= j < |hs| && hs[j].id == pages[p].owner && p in hs[j].pages;
        assert hs'[j].id == after[p].owner && p in hs'[j].pages;
      }
    }
  }

  lemma OwnedAdded(pages: seq<Page>, st: PageState, hs: seq<Holding>, h: Holding)
    requires Owned(pages, st, hs) && Outside(pages, st, h.pages) && Distinct(h.pages)
    requires forall i :: 0 <= i < |hs| ==> hs[i].id != h.id
    ensures Owned(Paint(pages, h.pages, Page(st, h.id)), st, hs + [h])
  {
    var after := Paint(pages, h.pages, Page(st, h.id));
    var hs' := hs + [h];
    forall p | 0 <= p < |after| && after[p].state == st ensures HeldBy(hs', after[p].owner, p) {
      if p in h.pages {
        assert hs'[|hs|] == h;
      } else {
        var j :| 0 <= j < |hs| && hs[j].id == pages[p].owner && p in hs[j].pages;
        assert hs'[j] == hs[j];
      }
    }
  }

  // ---------- Counting ----------

  function CountState(pages: seq<Page>, st: PageState): (n: nat)
    ensures n <= |pages|
  {
    if pages == [] then 0
    else CountState(pages[..|pages| - 1], st) + (if pages[|pages| - 1].state == st then 1 else 0)
  }

  function TotalHeld(hs: seq<Holding>): nat {
    if hs == [] then 0 else TotalHeld(hs[..|hs| - 1]) + |hs[|hs| - 1].pages|
  }

  lemma {:induction false} CountStateUpdate(pages: seq<Page>, st: PageState, p: nat, v: Page)
    requires p < |pages|
    ensures CountState(pages[p := v], st) ==
      CountState(pages, st) - (if pages[p].state == st then 1 else 0) + (if v.state == st then 1 else 0)
  {
    var n := |pages| - 1;
    if p < n {
      assert pages[p := v][..n] == pages[..n][p := v];
      CountStateUpdate(pages[..n], st, p, v);
    } else {
      assert pages[p := v][..n] == pages[..n];
    }
  }

  lemma PaintStep(pages: seq<Page>, ids: seq<nat>, v: Page)
    requires ids != [] && ids[|ids| - 1] < |pages|
    ensures Paint(pages, ids, v) == Paint(pages, ids[..|ids| - 1], v)[ids[|ids| - 1] := v]
  {
    assert ids == ids[..|ids| - 1] + [ids[|ids| - 1]];
  }

  /** Painting distinct pages moves exactly that many pages between the counters. */
  lemma {:induction false} CountPainted(pages: seq<Page>, st: PageState, ids: seq<nat>, v: Page, from: PageState)
    requires Distinct(ids) && v.state != from
    requires forall k :: 0 <= k < |ids| ==> ids[k] < |pages| && pages[ids[k]].state == from
    ensures CountState(Paint(pages, ids, v), st) == CountState(pages, st)
      - (if st == from then |ids| else 0) + (if st == v.state then |ids| else 0)
  {
    if ids == [] {
      assert Paint(pages, ids, v) == pages;
    } else {
      var init, last := ids[..|ids| - 1], ids[|ids| - 1];
      CountPainted(pages, st, init, v, from);
      PaintStep(pages, ids, v);
      CountStateUpdate(Paint(pages, init, v), st, last, v);
      assert last !in init;
    }
  }

  lemma {:induction false} CountNone(pages: seq<Page>, st: PageState)
    requires forall p :: 0 <= p < |pages| ==> pages[p].state != st
    ensures CountState(pages, st) == 0
  {
    if pages == [] {
    } else {
      CountNone(pages[..|pages| - 1], st);
    }
  }

  /** The page tags and the lists count the same pages. */
  lemma {:induction false} CountIsTotalHeld(pages: seq<Page>, st: PageState, hs: seq<Holding>)
    requires Owned(pages, st, hs)
    ensures CountState(pages, st) == TotalHeld(hs)
    decreases |hs|
  {
    if hs == [] {
      forall p | 0 <= p < |pages| ensures pages[p].state != st {
        assert !HeldBy(hs, pages[p].owner, p);
      }
      CountNone(pages, st);
    } else {
      var i := |hs| - 1;
      var v := if st == Free then Page(Reserved, 0) else FREE_PAGE;
      OwnedReleased(pages, st, hs, i, v);
      assert RemoveAt(hs, i) == hs[..i];
      CountIsTotalHeld(Paint(pages, hs[i].pages, v), st, hs[..i]);
      assert AllTagged(pages, hs[i].pages, Page(st, hs[i].id));
      CountPainted(pages, st, hs[i].pages, v, st);
    }
  }

  lemma {:induction false} CountsPartition(pages: seq<Page>)
    ensures CountState(pages, Free) + CountState(pages, Reserved)
      + CountState(pages, MutableSequence) + CountState(pages, ImmutablePrefix) == |pages|
  {
    if pages == [] {
    } else {
      CountsPartition(pages[..|pages| - 1]);
    }
  }

  // ---------- Choosing free pages ----------

  function CountFreeFrom(pages: seq<Page>, from: nat): nat
    requires from <= |pages|
    decreases |pages| - from
  {
    if from == |pages| then 0
    else (if pages[from].state == Free then 1 else 0) + CountFreeFrom(pages, from + 1)
  }

  lemma {:induction false} CountFreeSplit(pages: seq<Page>, from: nat)
    requires from <= |pages|
    ensures CountState(pages[..from], Free) + CountFreeFrom(pages, from) == CountState(pages, Free)
    decreases |pages| - from
  {
    if from == |pages| {
      assert pages[..from] == pages;
    } else {
      assert pages[..from + 1][..from] == pages[..from];
      CountFreeSplit(pages, from + 1);
    }
  }

  /** `SelectFree` returns the lowest free pages, increasing, and only runs short when they run out. */
  lemma {:induction false} SelectFreeCorrect(pages: seq<Page>, from: nat, want: nat)
    requires from <= |pages|
    ensures var r := SelectFree(pages, from, want);
      && |r| == (if want <= CountFreeFrom(pages, from) then want else CountFreeFrom(pages, from))
      && (forall k :: 0 <= k < |r| ==> from <= r[k] < |pages| && pages[r[k]].state == Free)
      && (forall i, j :: 0 <= i < j < |r| ==> r[i] < r[j])
      && (forall k, p :: 0 <= k < |r| && from <= p < r[k] && pages[p].state == Free ==> p in r)
    decreases |pages| - from
  {
    if from < |pages| && want > 0 {
      if pages[from].state == Free {
        SelectFreeCorrect(pages, from + 1, want - 1);
        var r, rest := SelectFree(pages, from, want), SelectFree(pages, from + 1, want - 1);
        forall k, p | 0 <= k < |r| && from <= p < r[k] && pages[p].state == Free ensures p in r {
          if p != from { assert r[k] == rest[k - 1]; assert p in rest; }
        }
      } else {
        SelectFreeCorrect(pages, from + 1, want);
      }
    }
  }

  lemma SelectFreeFromStart(pages: seq<Page>, want: nat)
    ensures var r := SelectFree(pages, 0, want);
      && (|r| == want <==> want <= CountState(pages, Free))
      && |r| <= want
      && Distinct(r)
      && (forall k :: 0 <= k < |r| ==> r[k] < |pages| && pages[r[k]].state == Free)
      && (forall k, p :: 0 <= k < |r| && 0 <= p < r[k] && pages[p].state == Free ==> p in r)
  {
    SelectFreeCorrect(pages, 0, want);
    CountFreeSplit(pages, 0);
    assert pages[..0] == [];
  }
}
