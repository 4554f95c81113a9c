/** The "what do I like" summaries of the recommender (recommender.py): liked activities
    counted per Art, the short profile label built from the two most liked Arten, the most
    frequent target-group tags, and the prices of the liked activities. */
module Preferences {
  import opened Util
  import opened Ranking
  import opened Activities
  import opened Features

  /** One line of a pandas `value_counts` / `Counter` result. */
  datatype Entry = Entry(key: string, count: nat)

  function ByCount(e: Entry): real
  {
    e.count as real
  }

  /** The sum of the counts. */
  function Total(r: seq<Entry>): nat
  {
    if r == [] then 0 else Total(r[..|r| - 1]) + r[|r| - 1].count
  }

  // ---------------------------------------------------------------------------
  // Counting
  // ---------------------------------------------------------------------------

  /** One entry per key of `u`, counting its occurrences in `keys`. */
  function EntriesFor(u: seq<string>, keys: seq<string>): (r: seq<Entry>)
    ensures |r| == |u|
    ensures forall i :: 0 <= i < |u| ==> r[i] == Entry(u[i], Count(keys, u[i]))
  {
    if u == [] then []
    else EntriesFor(u[..|u| - 1], keys) + [Entry(u[|u| - 1], Count(keys, u[|u| - 1]))]
  }

  /** The occurrence counts of `keys`, distinct keys in order of first appearance (the
      order `collections.Counter` and pandas' hash table produce before sorting). */
  function Tally(keys: seq<string>): (r: seq<Entry>)
    ensures forall e :: e in r <==> e.key in keys && e.count == Count(keys, e.key)
    ensures forall e :: e in r ==> e.count > 0
  {
    var u := Unique(keys);
    var r := EntriesFor(u, keys);
    assert forall e :: e in r ==> e.key in u by {
      forall e | e in r ensures e.key in u {
        var i :| 0 <= i < |r| && r[i] == e;
      }
    }
    assert forall k :: k in u ==> Entry(k, Count(keys, k)) in r by {
      forall k | k in u ensures Entry(k, Count(keys, k)) in r {
        var i :| 0 <= i < |u| && u[i] == k;
        assert r[i] == Entry(k, Count(keys, k));
      }
    }
    r
  }

  lemma {:induction false} CountSnoc(a: seq<string>, x: string, k: string)
    ensures Count(a + [x], k) == Count(a, k) + (if x == k then 1 else 0)
  {
    if a != [] {
      CountSnoc(a[1..], x, k);
      assert (a + [x])[1..] == a[1..] + [x];
    }
  }

  lemma {:induction false} TotalSnoc(u: seq<string>, init: seq<string>, x: string)
    requires NoDuplicates(u)
    ensures Total(EntriesFor(u, init + [x])) == Total(EntriesFor(u, init)) + (if x in u then 1 else 0)
  {
    if u != [] {
      var v, last := u[..|u| - 1], u[|u| - 1];
      assert u == v + [last];
      assert last !in v;
      TotalSnoc(v, init, x);
      CountSnoc(init, x, last);
      assert EntriesFor(u, init + [x])[..|u| - 1] == EntriesFor(v, init + [x]);
      assert EntriesFor(u, init)[..|u| - 1] == EntriesFor(v, init);
      assert x in u <==> x in v || x == last;
    }
  }

  /** The counts of a tally add up to the number of keys counted. */
  lemma {:induction false} TallyTotal(keys: seq<string>)
    ensures Total(EntriesFor(Unique(keys), keys)) == |keys|
  {
    if keys != [] {
      var init, x := keys[..|keys| - 1], keys[|keys| - 1];
      assert keys == init + [x];
      TallyTotal(init);
      var u := Unique(init);
      TotalSnoc(u, init, x);
      if x !in u {
        var w := u + [x];
        assert Unique(keys) == w;
        assert EntriesFor(w, keys)[..|u|] == EntriesFor(u, keys);
        CountSnoc(init, x, x);
        assert Count(init, x) == 0;
      }
    }
  }

  lemma {:induction false} TotalConcat(a: seq<Entry>, b: seq<Entry>)
    ensures Total(a + b) == Total(a) + Total(b)
  {
    if b == [] {
      assert a + b == a;
    } else {
      var ab := a + b;
      TotalConcat(a, b[..|b| - 1]);
      assert ab[..|ab| - 1] == a + b[..|b| - 1];
      assert ab[|ab| - 1] == b[|b| - 1];
      assert Total(ab) == Total(ab[..|ab| - 1]) + ab[|ab| - 1].count;
    }
  }

  /** Reordering entries does not change their total. */
  lemma {:induction false} TotalPermutation(a: seq<Entry>, b: seq<Entry>)
    requires multiset(a) == multiset(b)
    ensures Total(a) == Total(b)
  {
    if a != [] {
      var init, e := a[..|a| - 1], a[|a| - 1];
      assert a == init + [e];
      assert e in multiset(b);
      var j :| 0 <= j < |b| && b[j] == e;
      var rest := b[..j] + b[j + 1..];
      RemoveAtMultiset(b, j);
      assert multiset(init) == multiset(a) - multiset{e};
      TotalPermutation(init, rest);
      TotalRemoveAt(b, j);
    }
  }

  lemma RemoveAtMultiset(b: seq<Entry>, j: nat)
    requires j < |b|
    ensures multiset(b[..j] + b[j + 1..]) == multiset(b) - multiset{b[j]}
  {
    assert b == b[..j] + [b[j]] + b[j + 1..];
  }

  /** The total without the entry at `j` is the total less that entry's count. */
  lemma TotalRemoveAt(b: seq<Entry>, j: nat)
    requires j < |b|
    ensures Total(b) == Total(b[..j] + b[j + 1..]) + b[j].count
  {
    SpliceAt(b, j);
    TotalSplice(b[..j], b[j], b[j + 1..]);
  }

  lemma SpliceAt(b: seq<Entry>, j: nat)
    requires j < |b|
    ensures (b[..j] + [b[j]]) + b[j + 1..] == b
  {
  }

  lemma TotalSplice(front: seq<Entry>, x: Entry, back: seq<Entry>)
    ensures Total((front + [x]) + back) == Total(front + back) + x.count
  {
    TotalConcat(front + [x], back);
    TotalConcat(front, back);
    TotalSnocEntry(front, x);
  }

  lemma TotalSnocEntry(front: seq<Entry>, x: Entry)
    ensures Total(front + [x]) == Total(front) + x.count
  {
    assert (front + [x])[..|front|] == front;
  }

  /** The counts of `keys`, most frequent first. */
  function Ranked(keys: seq<string>): (r: seq<Entry>)
    ensures SortedDesc(r, ByCount)
  {
    SortDesc(Tally(keys), ByCount)
  }

  /** Sorting keeps the tally: exactly one entry per distinct key, with its count, and the
      counts add up to the number of keys. */
  lemma RankedCounts(keys: seq<string>)
    ensures forall e :: e in Ranked(keys) <==> e.key in keys && e.count == Count(keys, e.key)
    ensures Total(Ranked(keys)) == |keys|
    ensures |Ranked(keys)| == |Unique(keys)|
  {
    var r := Ranked(keys);
    assert forall e :: e in r <==> e in multiset(r);
    assert forall e :: e in Tally(keys) <==> e in multiset(Tally(keys));
    TallyTotal(keys);
    TotalPermutation(r, Tally(keys));
  }

  // ---------------------------------------------------------------------------
  // Preference scores per Art
  // ---------------------------------------------------------------------------

  /** The liked rows of the table, in table order. */
  function LikedRows(liked: seq<int>, t: seq<Activity>): (r: seq<Activity>)
    ensures forall a :: a in r <==> a in t && a.id in liked
    ensures liked == [] || t == [] ==> r == []
  {
    if liked == [] || t == [] then [] else RowsWithIds(t, liked)
  }

  /** The Art of a row, with a missing one counted as 'Unbekannt'. */
  function ArtOf(a: Activity): string
  {
    if a.art.Some? then a.art.value else "Unbekannt"
  }

  function Arten(rows: seq<Activity>): (r: seq<string>)
    ensures |r| == |rows|
    ensures forall i :: 0 <= i < |rows| ==> r[i] == ArtOf(rows[i])
  {
    Map(rows, ArtOf)
  }

  /** `calculate_preference_scores`: None without likes, for an empty table or when no liked
      ID matches a row; otherwise the number of liked rows per Art, most liked first. */
  function CalculatePreferenceScores(liked: seq<int>, t: seq<Activity>): (r: Option<seq<Entry>>)
    ensures r.None? <==> LikedRows(liked, t) == []
    ensures r.Some? ==> r.value != [] && SortedDesc(r.value, ByCount)
  {
    if liked == [] || t == [] then None
    else
      var rows := LikedRows(liked, t);
      if rows == [] then None
      else
        RankedCounts(Arten(rows));
        assert rows[0] in rows;
        assert ArtOf(rows[0]) in Arten(rows);
        assert Entry(ArtOf(rows[0]), Count(Arten(rows), ArtOf(rows[0]))) in Ranked(Arten(rows));
        Some(Ranked(Arten(rows)))
  }

  /** Each entry counts the liked rows of one Art (a missing Art counted as 'Unbekannt'),
      every Art of a liked row has its entry, and the counts sum to the number of liked rows. */
  lemma PreferenceScoresCount(liked: seq<int>, t: seq<Activity>)
    requires CalculatePreferenceScores(liked, t).Some?
    ensures var r := CalculatePreferenceScores(liked, t).value;
      var rows := LikedRows(liked, t);
      (forall e :: e in r <==> e.key in Arten(rows) && e.count == Count(Arten(rows), e.key))
      && Total(r) == |rows|
  {
    RankedCounts(Arten(LikedRows(liked, t)));
  }

  // ---------------------------------------------------------------------------
  // Profile label
  // ---------------------------------------------------------------------------

  /** `{a, b} == {x, y}` for two different strings `x` and `y`. */
  predicate IsPair(a: string, b: string, x: string, y: string)
  {
    (a == x && b == y) || (a == y && b == x)
  }

  /** The label for the two most liked Arten, `first` the more liked one. */
  function PairLabel(first: Entry, second: Entry): string
  {
    if IsPair(first.key, second.key, "Sport", "Action") then "Sport & Action Typ"
    else if IsPair(first.key, second.key, "Natur", "Wandern") then "Naturfreund"
    else if IsPair(first.key, second.key, "Genuss", "Shopping") then "Genuss & Shopping Typ"
    else if first.count as real > second.count as real * 1.5 then first.key + "-Fan (Interesse: " + second.key + ")"
    else first.key + " & " + second.key + " Typ"
  }

  /** `generate_profile_label`: None for no or empty scores; otherwise, after sorting by
      count, '<A>-Fan' for one Art and the pair label for the top two, stripped. */
  function GenerateProfileLabel(scores: Option<seq<Entry>>): (r: Option<string>)
    ensures r.None? <==> scores.None? || scores.value == []
  {
    if scores.None? || scores.value == [] then None
    else Some(LabelOfSorted(SortDesc(scores.value, ByCount)))
  }

  /** The label for scores already sorted by count, stripped. */
  function LabelOfSorted(sorted: seq<Entry>): string
    requires sorted != []
  {
    if |sorted| == 1 then Strip(sorted[0].key + "-Fan")
    else Strip(PairLabel(sorted[0], sorted[1]))
  }

  lemma StripKeeps(s: string)
    requires s != [] && !IsSpace(s[0]) && !IsSpace(s[|s| - 1])
    ensures Strip(s) == s
  {
  }

  /** Two entries sort into one of their two orders. */
  lemma SortTwo(e1: Entry, e2: Entry)
    ensures SortDesc([e1, e2], ByCount) == [e1, e2] || SortDesc([e1, e2], ByCount) == [e2, e1]
    ensures e1.count > e2.count ==> SortDesc([e1, e2], ByCount) == [e1, e2]
    ensures e1.count < e2.count ==> SortDesc([e1, e2], ByCount) == [e2, e1]
  {
    var s := SortDesc([e1, e2], ByCount);
    assert multiset(s) == multiset{e1, e2};
    assert s == [s[0], s[1]];
    assert multiset(s) == multiset{s[0], s[1]};
    if s[0] == e1 {
      assert s[1] == e2 by {
        assert multiset{s[1]} == multiset{e2};
      }
    } else {
      assert s[0] in multiset{e1, e2};
      assert s[0] == e2;
      assert multiset{s[1]} == multiset{e1};
    }
  }

  /** The label of two entries is the label of their sorted order. */
  lemma LabelOfTwo(e1: Entry, e2: Entry)
    ensures var l := GenerateProfileLabel(Some([e1, e2])).value;
      l == LabelOfSorted([e1, e2]) || l == LabelOfSorted([e2, e1])
    ensures e1.count > e2.count ==> GenerateProfileLabel(Some([e1, e2])).value == LabelOfSorted([e1, e2])
    ensures e1.count < e2.count ==> GenerateProfileLabel(Some([e1, e2])).value == LabelOfSorted([e2, e1])
  {
    SortTwo(e1, e2);
  }

  /** The three special pairs get their fixed names whichever of the two is liked more,
      and also when both are liked equally often. */
  lemma SpecialPairsInEitherOrder(e1: Entry, e2: Entry)
    ensures IsPair(e1.key, e2.key, "Sport", "Action") ==>
      GenerateProfileLabel(Some([e1, e2])) == Some("Sport & Action Typ")
    ensures IsPair(e1.key, e2.key, "Natur", "Wandern") ==>
      GenerateProfileLabel(Some([e1, e2])) == Some("Naturfreund")
    ensures IsPair(e1.key, e2.key, "Genuss", "Shopping") ==>
      GenerateProfileLabel(Some([e1, e2])) == Some("Genuss & Shopping Typ")
  {
    if IsPair(e1.key, e2.key, "Sport", "Action") {
      SportActionNamed(e1, e2);
    } else if IsPair(e1.key, e2.key, "Natur", "Wandern") {
      NaturWandernNamed(e1, e2);
    } else if IsPair(e1.key, e2.key, "Genuss", "Shopping") {
      GenussShoppingNamed(e1, e2);
    }
  }

  lemma SportActionNamed(e1: Entry, e2: Entry)
    requires IsPair(e1.key, e2.key, "Sport", "Action")
    ensures GenerateProfileLabel(Some([e1, e2])) == Some("Sport & Action Typ")
  {
    PairNamed(e1, e2, "Sport & Action Typ");
  }

  lemma NaturWandernNamed(e1: Entry, e2: Entry)
    requires IsPair(e1.key, e2.key, "Natur", "Wandern")
    ensures GenerateProfileLabel(Some([e1, e2])) == Some("Naturfreund")
  {
    PairNamed(e1, e2, "Naturfreund");
  }

  lemma GenussShoppingNamed(e1: Entry, e2: Entry)
    requires IsPair(e1.key, e2.key, "Genuss", "Shopping")
    ensures GenerateProfileLabel(Some([e1, e2])) == Some("Genuss & Shopping Typ")
  {
    PairNamed(e1, e2, "Genuss & Shopping Typ");
  }

  lemma PairNamed(e1: Entry, e2: Entry, name: string)
    requires PairLabel(e1, e2) == PairLabel(e2, e1) == name
    requires name != [] && !IsSpace(name[0]) && !IsSpace(name[|name| - 1])
    ensures GenerateProfileLabel(Some([e1, e2])) == Some(name)
  {
    LabelOfTwo(e1, e2);
    StripKeeps(name);
  }

  /** With different counts the label does not depend on the order the scores come in. */
  lemma LabelIgnoresInputOrder(e1: Entry, e2: Entry)
    requires e1.count != e2.count
    ensures GenerateProfileLabel(Some([e1, e2])) == GenerateProfileLabel(Some([e2, e1]))
  {
    LabelOfTwo(e1, e2);
    LabelOfTwo(e2, e1);
  }

  /** The 1.5 threshold is strict: 3 likes against 2 give the balanced label, 4 against 2
      the fan label. */
  lemma FanThreshold(a1: string, a2: string)
    requires !IsPair(a1, a2, "Sport", "Action") && !IsPair(a1, a2, "Natur", "Wandern")
    requires !IsPair(a1, a2, "Genuss", "Shopping")
    ensures GenerateProfileLabel(Some([Entry(a2, 2), Entry(a1, 3)])).value == Strip(a1 + " & " + a2 + " Typ")
    ensures GenerateProfileLabel(Some([Entry(a2, 2), Entry(a1, 4)])).value == Strip(a1 + "-Fan (Interesse: " + a2 + ")")
  {
    LabelOfTwo(Entry(a1, 3), Entry(a2, 2));
    LabelOfTwo(Entry(a1, 4), Entry(a2, 2));
    LabelIgnoresInputOrder(Entry(a1, 3), Entry(a2, 2));
    LabelIgnoresInputOrder(Entry(a1, 4), Entry(a2, 2));
  }

  /** Applied to the scores of `calculate_preference_scores`, which are already sorted, the
      label is built from their first one or two entries as they stand. */
  lemma LabelOfPreferenceScores(liked: seq<int>, t: seq<Activity>)
    requires CalculatePreferenceScores(liked, t).Some?
    ensures var s := CalculatePreferenceScores(liked, t).value;
      GenerateProfileLabel(Some(s))
      == Some(Strip(if |s| == 1 then s[0].key + "-Fan" else PairLabel(s[0], s[1])))
  {
    SortDescOfSorted(CalculatePreferenceScores(liked, t).value, ByCount);
  }

  // ---------------------------------------------------------------------------
  // Target groups
  // ---------------------------------------------------------------------------

  /** The tags of `rows`, row after row. */
  function AllTags(rows: seq<Activity>): seq<string>
  {
    if rows == [] then [] else AllTags(rows[..|rows| - 1]) + Tags(rows[|rows| - 1].zielgruppe)
  }

  /** `calculate_top_target_groups`: collects the tags of the liked rows, then counts them
      and keeps the `topN` most frequent (pandas `head(topN)`, so a negative `topN` drops
      that many from the end). None when no tag was found. */
  method CalculateTopTargetGroups(liked: seq<int>, t: seq<Activity>, topN: int) returns (r: Option<seq<Entry>>)
    ensures var tags := AllTags(LikedRows(liked, t));
      (r.None? <==> tags == [])
      && (r.Some? ==> r.value == SliceTo(Ranked(tags), topN))
  {
    if liked == [] || t == [] {
      return None;
    }
    var rows := LikedRows(liked, t);
    if rows == [] {
      return None;
    }
    var allTags: seq<string> := [];
    var i := 0;
    while i < |rows|
      invariant 0 <= i <= |rows|
      invariant allTags == AllTags(rows[..i])
    {
      AllTagsStep(rows, i);
      allTags := allTags + Tags(rows[i].zielgruppe);
      i := i + 1;
    }
    assert rows[..|rows|] == rows;
    if allTags == [] {
      return None;
    }
    r := Some(SliceTo(Ranked(allTags), topN));
  }

  lemma AllTagsStep(rows: seq<Activity>, i: nat)
    requires i < |rows|
    ensures AllTags(rows[..i + 1]) == AllTags(rows[..i]) + Tags(rows[i].zielgruppe)
  {
    var prefix := rows[..i + 1];
    assert prefix[..i] == rows[..i];
    assert prefix[i] == rows[i];
  }

  lemma {:induction false} AllTagsAreClean(rows: seq<Activity>)
    ensures forall tag :: tag in AllTags(rows) ==> tag != "" && ',' !in tag
  {
    if rows != [] {
      AllTagsAreClean(rows[..|rows| - 1]);
      TagsAreClean(rows[|rows| - 1].zielgruppe);
    }
  }

  /** The top target groups: at most `topN` of them, non-empty comma-free tags with their
      true counts, most frequent first. */
  lemma TopTargetGroupsAreCounts(tags: seq<string>, topN: nat)
    requires forall tag :: tag in tags ==> tag != "" && ',' !in tag
    ensures var r := SliceTo(Ranked(tags), topN);
      |r| <= topN
      && SortedDesc(r, ByCount)
      && (forall e :: e in r ==> e.key != "" && ',' !in e.key && e.count == Count(tags, e.key) > 0)
  {
    var s := Ranked(tags);
    RankedCounts(tags);
    SortedDescPrefix(s, ByCount, Min(topN, |s|));
  }

  /** No tag left out of the top target groups is more frequent than one kept. */
  lemma TopTargetGroupsAreMostFrequent(tags: seq<string>, topN: nat)
    ensures var r := SliceTo(Ranked(tags), topN);
      forall e, k :: e in r && k in tags && Entry(k, Count(tags, k)) !in r ==> Count(tags, k) <= e.count
  {
    var s := Ranked(tags);
    RankedCounts(tags);
    var n := Min(topN, |s|);
    forall e, k | e in s[..n] && k in tags && Entry(k, Count(tags, k)) !in s[..n] ensures Count(tags, k) <= e.count {
      PrefixDominates(s, ByCount, n, e, Entry(k, Count(tags, k)));
    }
  }

  // ---------------------------------------------------------------------------
  // Liked prices
  // ---------------------------------------------------------------------------

  /** A row whose price is present (and, unless `includeFree`, above 0). */
  function Usable(includeFree: bool): Activity -> bool
  {
    (a: Activity) => a.price.Some? && (includeFree || a.price.value > 0.0)
  }

  /** The prices of `rows` that are present (and, unless `includeFree`, above 0), in order. */
  function PricesOf(rows: seq<Activity>, includeFree: bool): (r: seq<real>)
    ensures forall x :: x in r <==> exists a :: a in rows && a.price == Some(x) && (includeFree || x > 0.0)
  {
    if rows == [] then []
    else
      var a := rows[0];
      var rest := PricesOf(rows[1..], includeFree);
      assert forall b :: b in rows[1..] ==> b in rows;
      assert forall b :: b in rows ==> b == a || b in rows[1..];
      if a.price.Some? && (includeFree || a.price.value > 0.0) then [a.price.value] + rest else rest
  }

  /** `get_liked_prices`: the prices of the liked rows in table order, all present ones with
      `includeFree` and only those above 0 without; None when that list is empty. */
  function GetLikedPrices(liked: seq<int>, t: seq<Activity>, includeFree: bool): (r: Option<seq<real>>)
    ensures r.None? <==> forall a :: a in t && a.id in liked ==> a.price.None? || (!includeFree && a.price.value <= 0.0)
    ensures r.Some? ==> forall x :: x in r.value <==>
      exists a :: a in t && a.id in liked && a.price == Some(x) && (includeFree || x > 0.0)
    ensures r.Some? ==> r.value == PricesOf(LikedRows(liked, t), includeFree)
  {
    if liked == [] || t == [] then None
    else
      var prices := PricesOf(LikedRows(liked, t), includeFree);
      assert prices == [] <==> forall x :: x !in prices by {
        if prices != [] {
          assert prices[0] in prices;
        }
      }
      if prices == [] then None else Some(prices)
  }

  /** One price per usable row, in row order, repeats included: the i-th price is the price
      of the i-th usable row. */
  lemma {:induction false} PricesOfUsableRows(rows: seq<Activity>, includeFree: bool)
    ensures var u := Filter(rows, Usable(includeFree));
      var r := PricesOf(rows, includeFree);
      |r| == |u| && forall i :: 0 <= i < |r| ==> u[i].price == Some(r[i])
  {
    if rows != [] {
      var p := Usable(includeFree);
      PricesOfUsableRows(rows[1..], includeFree);
      var u, u' := Filter(rows, p), Filter(rows[1..], p);
      var r, r' := PricesOf(rows, includeFree), PricesOf(rows[1..], includeFree);
      if p(rows[0]) {
        assert u == [rows[0]] + u' && r == [rows[0].price.value] + r';
        forall i | 1 <= i < |r| ensures u[i].price == Some(r[i]) {
          assert u[i] == u'[i - 1] && r[i] == r'[i - 1];
        }
      } else {
        assert u == u' && r == r';
      }
    }
  }

  /** The prices above 0 are a selection, in order, of all the present prices. */
  lemma {:induction false} PaidPricesAreSelection(rows: seq<Activity>)
    ensures IsSubsequence(PricesOf(rows, false), PricesOf(rows, true))
  {
    if rows != [] {
      PaidPricesAreSelection(rows[1..]);
      var a := rows[0];
      if a.price.Some? && a.price.value <= 0.0 {
        SubsequencePrepend(PricesOf(rows[1..], false), [a.price.value], PricesOf(rows[1..], true));
      }
    }
  }
}
