/** The two derived views the page recomputes from the catalogue: the
    search/tag filter `filtered` and the sorted distinct tag list `allTags`
    that feeds the tag dropdown. */
module Views {
  import opened Text
  import opened Records
  import Seqs

  /** The dropdown value that disables tag filtering. */
  const AllTagsSentinel := "all"

  /** The free-text part of the filter: `lowered` is the already lower-cased
      query; an empty query matches everything. */
  predicate MatchesText(item: Item, lowered: string) {
    || lowered == []
    || Includes(ToLower(item.businessName), lowered)
    || Includes(ToLower(item.contactName), lowered)
    || Includes(ToLower(item.contactInfo), lowered)
    || Includes(ToLower(item.pictureTitle), lowered)
    || Includes(ToLower(item.pictureDescription), lowered)
  }

  predicate MatchesTag(item: Item, tagFilter: string) {
    tagFilter == AllTagsSentinel || tagFilter in item.tags
  }

  predicate Visible(item: Item, query: string, tagFilter: string) {
    MatchesText(item, ToLower(query)) && MatchesTag(item, tagFilter)
  }

  /** The searchable text fields of a record. */
  function TextFields(item: Item): seq<string> {
    [item.businessName, item.contactName, item.contactInfo, item.pictureTitle, item.pictureDescription]
  }

  /** Visibility restated without the search helper: the query is empty or
      its lower-cased form occurs inside one of the lower-cased text
      fields, and the tag filter is the sentinel or one of the tags. */
  lemma VisibleIff(item: Item, query: string, tagFilter: string)
    ensures Visible(item, query, tagFilter) <==>
      && (query == [] || exists f, k :: 0 <= f < 5 && OccursAt(ToLower(TextFields(item)[f]), ToLower(query), k))
      && (tagFilter == AllTagsSentinel || exists j :: 0 <= j < |item.tags| && item.tags[j] == tagFilter)
  {
    var q := ToLower(query);
    var fields := TextFields(item);
    forall f | 0 <= f < 5
      ensures Includes(ToLower(fields[f]), q) <==> exists k :: OccursAt(ToLower(fields[f]), q, k)
    {
      IncludesIff(ToLower(fields[f]), q);
    }
    if Visible(item, query, tagFilter) && query != [] {
      assert q != [];
      if Includes(ToLower(fields[0]), q) {
      } else if Includes(ToLower(fields[1]), q) {
      } else if Includes(ToLower(fields[2]), q) {
      } else if Includes(ToLower(fields[3]), q) {
      } else {
        assert Includes(ToLower(fields[4]), q);
      }
    }
  }

  /** `filtered`: the records passing both the text and the tag test, in
      catalogue order, each as often as it occurs in the catalogue; an empty
      query with the sentinel shows everything. */
  function Filtered(items: seq<Item>, query: string, tagFilter: string): (r: seq<Item>)
    ensures Seqs.IsSubsequence(r, items)
    ensures forall x :: x in r <==> x in items && Visible(x, query, tagFilter)
    ensures forall x :: multiset(r)[x] == if Visible(x, query, tagFilter) then multiset(items)[x] else 0
    ensures query == [] && tagFilter == AllTagsSentinel ==> r == items
  {
    Seqs.Filter(items, (x: Item) => Visible(x, query, tagFilter))
  }

  /** Strictly ascending in the default sort order, hence duplicate-free. */
  ghost predicate StrictlyAscending(s: seq<string>) {
    forall i, j :: 0 <= i < j < |s| ==> Less(s[i], s[j])
  }

  /** `t` is among the tags of some record. */
  ghost predicate TagOccurs(items: seq<Item>, t: string) {
    exists k :: 0 <= k < |items| && t in items[k].tags
  }

  /** Adds `t` to a sorted, duplicate-free list, keeping it so. */
  function InsertSorted(s: seq<string>, t: string): (r: seq<string>)
    requires StrictlyAscending(s)
    ensures StrictlyAscending(r)
    ensures forall x :: x in r <==> x in s || x == t
    decreases |s|
  {
    if s == [] then [t]
    else if t == s[0] then s
    else if Less(t, s[0]) then
      assert forall j :: 0 <= j < |s| ==> Less(t, s[j]) by {
        forall j | 0 < j < |s| ensures Less(t, s[j]) {
          LessTransitive(t, s[0], s[j]);
        }
      }
      [t] + s
    else
      LessTotal(t, s[0]);
      var rest := InsertSorted(s[1..], t);
      assert forall x :: x in rest ==> Less(s[0], x);
      [s[0]] + rest
  }

  function InsertAll(s: seq<string>, ts: seq<string>): (r: seq<string>)
    requires StrictlyAscending(s)
    ensures StrictlyAscending(r)
    ensures forall x :: x in r <==> x in s || x in ts
    decreases |ts|
  {
    if ts == [] then s
    else
      assert ts == [ts[0]] + ts[1..];
      InsertAll(InsertSorted(s, ts[0]), ts[1..])
  }

  /** The `forEach` over the records, adding each one's tags to the set. */
  function CollectTags(acc: seq<string>, items: seq<Item>): (r: seq<string>)
    requires StrictlyAscending(acc)
    ensures StrictlyAscending(r)
    ensures forall t :: t in r <==> t in acc || TagOccurs(items, t)
    decreases |items|
  {
    if items == [] then acc
    else
      var r := CollectTags(InsertAll(acc, items[0].tags), items[1..]);
      assert forall t :: TagOccurs(items, t) <==> t in items[0].tags || TagOccurs(items[1..], t) by {
        forall t | TagOccurs(items, t) && t !in items[0].tags
          ensures TagOccurs(items[1..], t)
        {
          var k :| 0 <= k < |items| && t in items[k].tags;
          assert items[1..][k - 1] == items[k];
        }
        forall t | TagOccurs(items[1..], t)
          ensures TagOccurs(items, t)
        {
          var k :| 0 <= k < |items[1..]| && t in items[1..][k].tags;
          assert items[k + 1] == items[1..][k];
        }
        forall t | t in items[0].tags
          ensures TagOccurs(items, t)
        {
          assert 0 < |items|;
        }
      }
      r
  }

  /** `allTags`: every tag used by some record, once each, in ascending
      order, and nothing else. */
  function AllTags(items: seq<Item>): (r: seq<string>)
    ensures StrictlyAscending(r)
    ensures forall i, j :: 0 <= i < j < |r| ==> r[i] != r[j]
    ensures forall t :: t in r <==> TagOccurs(items, t)
  {
    var r := CollectTags([], items);
    assert forall i :: 0 <= i < |r| ==> !Less(r[i], r[i]) by {
      forall i | 0 <= i < |r| ensures !Less(r[i], r[i]) {
        LessIrreflexive(r[i]);
      }
    }
    r
  }

  lemma SameMembersBothEmpty(a: seq<string>, b: seq<string>)
    requires forall x :: x in a <==> x in b
    ensures a == [] <==> b == []
  {
    if a != [] {
      assert a[0] in a;
    }
    if b != [] {
      assert b[0] in b;
    }
  }

  /** A set of strings has exactly one strictly ascending listing, so
      `AllTags` is `Array.from(set).sort()` whatever the insertion order. */
  lemma {:induction false} AscendingListingUnique(a: seq<string>, b: seq<string>)
    requires StrictlyAscending(a) && StrictlyAscending(b)
    requires forall x :: x in a <==> x in b
    ensures a == b
    decreases |a|
  {
    SameMembersBothEmpty(a, b);
    if a != [] {
      if a[0] != b[0] {
        assert a[0] in b;
        var i :| 0 <= i < |b| && b[i] == a[0];
        assert b[0] in a;
        var j :| 0 <= j < |a| && a[j] == b[0];
        assert Less(b[0], a[0]) && Less(a[0], b[0]);
        LessAsymmetric(a[0], b[0]);
      }
      forall x
        ensures x in a[1..] <==> x in b[1..]
      {
        if x in a[1..] {
          var i :| 1 <= i < |a| && a[i] == x;
          LessIrreflexive(a[0]);
          assert x != a[0];
          assert x in b;
        }
        if x in b[1..] {
          var i :| 1 <= i < |b| && b[i] == x;
          LessIrreflexive(b[0]);
          assert x != b[0];
          assert x in a;
        }
      }
      AscendingListingUnique(a[1..], b[1..]);
      assert a == [a[0]] + a[1..] && b == [b[0]] + b[1..];
    }
  }
}
