/**
 * `find_cves` in sel_scanner.py: the items of the NVD feed's `CVE_Items`
 * list whose description texts mention the model, compared after lower-casing
 * both sides, in feed order and each feed entry at most once. The feed is an
 * input; a feed without `CVE_Items` is `None`.
 */
module CveFilter {
  import opened Options
  import opened Text

  /** One feed item: its identifier and the `value` of each entry of its `description_data`. */
  datatype CveItem = CveItem(id: string, descriptions: seq<string>)

  /** `model.lower() in d["value"].lower()`. */
  predicate MentionedIn(description: string, model: string) {
    Contains(Lower(description), Lower(model))
  }

  /** Some description of the item mentions the model. */
  predicate Mentions(item: CveItem, model: string) {
    exists k :: 0 <= k < |item.descriptions| && MentionedIn(item.descriptions[k], model)
  }

  /** `db.get("CVE_Items", [])`. */
  function ItemsOf(db: Option<seq<CveItem>>): seq<CveItem> {
    if db.Some? then db.value else []
  }

  /** The items that mention the model, in feed order: every hit mentions it, and there are no more hits than items. */
  function Filter(items: seq<CveItem>, model: string): (hits: seq<CveItem>)
    ensures |hits| <= |items|
    ensures forall i :: 0 <= i < |hits| ==> Mentions(hits[i], model)
  {
    if items == [] then []
    else
      var last := items[|items| - 1];
      Filter(items[..|items| - 1], model) + (if Mentions(last, model) then [last] else [])
  }

  /** `find_cves(db, model)`. */
  method FindCves(db: Option<seq<CveItem>>, model: string) returns (hits: seq<CveItem>)
    ensures hits == Filter(ItemsOf(db), model)
    ensures db.None? ==> hits == []
  {
    var items := ItemsOf(db);
    hits := [];
    var i := 0;
    while i < |items|
      invariant 0 <= i <= |items|
      invariant hits == Filter(items[..i], model)
    {
      var item := items[i];
      var j := 0;
      var found := false;
      while j < |item.descriptions|
        invariant 0 <= j <= |item.descriptions|
        invariant found ==> Mentions(item, model)
        invariant !found ==> forall k :: 0 <= k < j ==> !MentionedIn(item.descriptions[k], model)
      {
        if MentionedIn(item.descriptions[j], model) {
          hits := hits + [item];
          found := true;
          break;
        }
        j := j + 1;
      }
      assert items[..i + 1][..i] == items[..i];
      i := i + 1;
    }
    assert items[..i] == items;
  }

  // ---------------------------------------------------------------------------
  // What the filter keeps

  /** An item is reported exactly when it is in the feed and mentions the model. */
  lemma {:induction false} FilterMembership(items: seq<CveItem>, model: string, x: CveItem)
    ensures x in Filter(items, model) <==> x in items && Mentions(x, model)
  {
    if items != [] {
      var front := items[..|items| - 1];
      FilterMembership(front, model, x);
      assert items == front + [items[|items| - 1]];
    }
  }

  /** The filter keeps the feed's order: filtering a concatenation concatenates the results. */
  lemma {:induction false} FilterAppend(a: seq<CveItem>, b: seq<CveItem>, model: string)
    ensures Filter(a + b, model) == Filter(a, model) + Filter(b, model)
    decreases |b|
  {
    if b == [] {
      assert a + b == a;
    } else {
      var b' := b[..|b| - 1];
      assert (a + b)[..|a + b| - 1] == a + b';
      assert (a + b)[|a + b| - 1] == b[|b| - 1];
      FilterAppend(a, b', model);
    }
  }

  /** Each item is reported as often as the feed holds it if it mentions the model, and never otherwise. */
  lemma {:induction false} FilterMultiplicity(items: seq<CveItem>, model: string, x: CveItem)
    ensures multiset(Filter(items, model))[x] == if Mentions(x, model) then multiset(items)[x] else 0
  {
    if items != [] {
      var front := items[..|items| - 1];
      FilterMultiplicity(front, model, x);
      assert items == front + [items[|items| - 1]];
    }
  }

  /** A feed in which no item repeats gives a report in which no item repeats. */
  lemma NoDuplicates(items: seq<CveItem>, model: string)
    requires forall i, j :: 0 <= i < j < |items| ==> items[i] != items[j]
    ensures var hits := Filter(items, model);
            forall i, j :: 0 <= i < j < |hits| ==> hits[i] != hits[j]
  {
    var hits := Filter(items, model);
    forall i, j | 0 <= i < j < |hits| ensures hits[i] != hits[j] {
      var x := hits[i];
      FilterMultiplicity(items, model, x);
      DistinctCount(items, x);
      assert hits == hits[..j] + [hits[j]] + hits[j + 1..];
      assert x in hits[..j];
    }
  }

  lemma {:induction false} DistinctCount(items: seq<CveItem>, x: CveItem)
    requires forall i, j :: 0 <= i < j < |items| ==> items[i] != items[j]
    ensures multiset(items)[x] <= 1
  {
    if items != [] {
      var front := items[..|items| - 1];
      DistinctCount(front, x);
      assert items == front + [items[|items| - 1]];
      if items[|items| - 1] == x {
        assert forall i :: 0 <= i < |front| ==> front[i] != x;
      }
    }
  }

  /** The comparison ignores case: two spellings of a model that lower-case alike find the same items. */
  lemma CaseInsensitive(items: seq<CveItem>, m1: string, m2: string)
    requires Lower(m1) == Lower(m2)
    ensures Filter(items, m1) == Filter(items, m2)
  {
    assert forall item :: Mentions(item, m1) <==> Mentions(item, m2);
  }
}
