/**
 * The list the screen renders: all accumulated records when the search text
 * is empty, otherwise those whose title or author contains the search text,
 * compared after lower-casing both sides.
 */
module SearchView {
  import opened Text
  import opened Records

  /** `s.filter(keep)`: the elements for which `keep` holds, in their order. */
  function Select<T(==)>(s: seq<T>, keep: T -> bool): (v: seq<T>)
    ensures |v| <= |s|
    ensures forall x | x in v :: x in s && keep(x)
  {
    if s == [] then []
    else (if keep(s[0]) then [s[0]] else []) + Select(s[1..], keep)
  }

  /** Indices `from..|s|-1` of the elements `keep` accepts, in increasing order. */
  function SelectedIndices<T>(s: seq<T>, keep: T -> bool, from: nat): (idx: seq<nat>)
    requires from <= |s|
    ensures forall k :: 0 <= k < |idx| ==> from <= idx[k] < |s|
    decreases |s| - from
  {
    if from == |s| then []
    else (if keep(s[from]) then [from] else []) + SelectedIndices(s, keep, from + 1)
  }

  /** An element of `s` is kept exactly when `keep` accepts it. */
  lemma {:induction false} SelectKeepsExactly<T>(s: seq<T>, keep: T -> bool)
    ensures forall i :: 0 <= i < |s| ==> (s[i] in Select(s, keep) <==> keep(s[i]))
  {
    if s != [] {
      SelectKeepsExactly(s[1..], keep);
      forall i | 0 <= i < |s| && keep(s[i])
        ensures s[i] in Select(s, keep)
      {
        if i > 0 {
          assert s[i] == s[1..][i - 1];
        }
      }
    }
  }

  /** Selecting from a suffix picks exactly the accepted indices of that suffix, in increasing order. */
  lemma {:induction false} SelectPicksFrom<T>(s: seq<T>, keep: T -> bool, from: nat)
    requires from <= |s|
    ensures var v, idx := Select(s[from..], keep), SelectedIndices(s, keep, from);
      && |idx| == |v|
      && (forall k :: 0 <= k < |idx| ==> v[k] == s[idx[k]])
      && (forall j, k :: 0 <= j < k < |idx| ==> idx[j] < idx[k])
      && (forall i :: from <= i < |s| ==> (i in idx <==> keep(s[i])))
    decreases |s| - from
  {
    if from < |s| {
      SelectPicksFrom(s, keep, from + 1);
      var rest, tail := SelectedIndices(s, keep, from + 1), Select(s[from + 1..], keep);
      assert s[from..] != [] && s[from..][0] == s[from];
      assert s[from..][1..] == s[from + 1..];
      var idx, v := SelectedIndices(s, keep, from), Select(s[from..], keep);
      if keep(s[from]) {
        assert idx == [from] + rest && v == [s[from]] + tail;
        forall k | 0 < k < |idx| ensures v[k] == s[idx[k]] {
          assert idx[k] == rest[k - 1] && v[k] == tail[k - 1];
        }
        forall i | from <= i < |s| ensures i in idx <==> keep(s[i]) {
          assert i in idx <==> i == from || i in rest;
        }
      } else {
        assert idx == rest && v == tail;
      }
    }
  }

  /**
   * The selection is the order-preserving subsequence of `s` made of exactly
   * the accepted elements: position `k` of the result holds the element at
   * the `k`-th accepted index.
   */
  lemma SelectPicksAccepted<T>(s: seq<T>, keep: T -> bool)
    ensures var v, idx := Select(s, keep), SelectedIndices(s, keep, 0);
      && |idx| == |v|
      && (forall k :: 0 <= k < |idx| ==> v[k] == s[idx[k]])
      && (forall j, k :: 0 <= j < k < |idx| ==> idx[j] < idx[k])
      && (forall i :: 0 <= i < |s| ==> (i in idx <==> keep(s[i])))
  {
    SelectPicksFrom(s, keep, 0);
    assert s[0..] == s;
  }

  /** Selection distributes over concatenation. */
  lemma {:induction false} SelectConcat<T>(a: seq<T>, b: seq<T>, keep: T -> bool)
    ensures Select(a + b, keep) == Select(a, keep) + Select(b, keep)
  {
    if a != [] {
      SelectConcat(a[1..], b, keep);
      assert (a + b)[0] == a[0] && (a + b)[1..] == a[1..] + b;
      var head := if keep(a[0]) then [a[0]] else [];
      calc {
        Select(a + b, keep);
        head + Select(a[1..] + b, keep);
        head + (Select(a[1..], keep) + Select(b, keep));
        (head + Select(a[1..], keep)) + Select(b, keep);
      }
    } else {
      assert a + b == b;
    }
  }

  /** Selecting from a selection with the same predicate changes nothing. */
  lemma {:induction false} SelectIdempotent<T>(s: seq<T>, keep: T -> bool)
    ensures Select(Select(s, keep), keep) == Select(s, keep)
  {
    if s != [] {
      SelectIdempotent(s[1..], keep);
      if keep(s[0]) {
        SelectConcat([s[0]], Select(s[1..], keep), keep);
      } else {
        SelectConcat([], Select(s[1..], keep), keep);
      }
    }
  }

  /** A predicate that accepts every element keeps the whole sequence. */
  lemma {:induction false} SelectAll<T>(s: seq<T>, keep: T -> bool)
    requires forall x | x in s :: keep(x)
    ensures Select(s, keep) == s
  {
    if s != [] {
      assert forall x | x in s[1..] :: x in s;
      SelectAll(s[1..], keep);
    }
  }

  /** The predicate the screen passes to `filter`. */
  predicate Matches(r: Record, search: string)
    ensures search == "" ==> Matches(r, search)
  {
    ContainsEmpty(Lower(r.title));
    Contains(Lower(r.title), Lower(search)) || Contains(Lower(r.author), Lower(search))
  }

  /** The records whose title or author contains the search text, ignoring case. */
  function Filter(data: seq<Record>, search: string): (v: seq<Record>)
    ensures |v| <= |data|
    ensures forall x | x in v :: x in data && Matches(x, search)
  {
    Select(data, r => Matches(r, search))
  }

  /** The `data` prop of the rendered list: an empty search shows everything. */
  function View(data: seq<Record>, search: string): (v: seq<Record>)
    ensures |v| <= |data|
    ensures forall x | x in v :: x in data && Matches(x, search)
  {
    if search == "" then data else Filter(data, search)
  }

  /**
   * The empty-search shortcut agrees with filtering: every record matches
   * the empty text, so the view is the filter for every search text, and the
   * whole list when the search is empty.
   */
  lemma ViewIsFilter(data: seq<Record>, search: string)
    ensures View(data, search) == Filter(data, search)
    ensures search == "" ==> View(data, search) == data
  {
    forall r: Record
      ensures Matches(r, "")
    {
      ContainsEmpty(Lower(r.title));
    }
    SelectAll(data, r => Matches(r, ""));
  }

  /**
   * With a non-empty search the view is the order-preserving subsequence of
   * `data` holding exactly its matching records: a record is kept when its
   * lower-cased title or author contains the lower-cased search, and a
   * dropped record contains it in neither.
   */
  lemma ViewKeepsExactlyMatching(data: seq<Record>, search: string)
    ensures var v, idx := View(data, search), SelectedIndices(data, r => Matches(r, search), 0);
      && |v| <= |data|
      && |idx| == |v|
      && (forall k :: 0 <= k < |idx| ==> v[k] == data[idx[k]])
      && (forall j, k :: 0 <= j < k < |idx| ==> idx[j] < idx[k])
      && (forall i :: 0 <= i < |data| ==> (i in idx <==> Matches(data[i], search)))
      && (forall i :: 0 <= i < |data| ==> (data[i] in v <==> Matches(data[i], search)))
  {
    ViewIsFilter(data, search);
    SelectPicksAccepted(data, r => Matches(r, search));
    SelectKeepsExactly(data, r => Matches(r, search));
  }

  /** The view of concatenated lists is the concatenation of their views. */
  lemma ViewConcat(a: seq<Record>, b: seq<Record>, search: string)
    ensures View(a + b, search) == View(a, search) + View(b, search)
  {
    ViewIsFilter(a + b, search);
    ViewIsFilter(a, search);
    ViewIsFilter(b, search);
    SelectConcat(a, b, r => Matches(r, search));
  }

  /** Filtering the rendered list again by the same search changes nothing. */
  lemma ViewIdempotent(data: seq<Record>, search: string)
    ensures View(View(data, search), search) == View(data, search)
  {
    ViewIsFilter(data, search);
    ViewIsFilter(View(data, search), search);
    SelectIdempotent(data, r => Matches(r, search));
  }

  /** Matching ignores the letter case of the search text. */
  lemma MatchesIgnoresSearchCase(r: Record, search: string)
    ensures Matches(r, Lower(search)) <==> Matches(r, search)
  {
    LowerIdempotent(search);
  }
}
