/**
 * The screen state as a value, and what one fetch does to it. `Step` is the
 * specification the `Home.GetData` method is proved against; `Run` replays
 * any sequence of fetch outcomes.
 */
module Paging {
  import opened Wrappers
  import opened Records
  import opened SearchView

  /** `{page, data, search}` of the list screen. */
  datatype ListingState = ListingState(page: nat, data: seq<Record>, search: string)

  /** The state the screen is constructed with. */
  const Initial := ListingState(0, [], "")

  /** The records a fetch outcome adds to the list (none unless it delivers). */
  function Received(o: Outcome): seq<Record> {
    if o.Delivers() then o.hits.value else []
  }

  /**
   * One awaited fetch: on status 200 with a spreadable `hits` array the hits
   * are appended and the page cursor advances; a different status, a thrown
   * request or a missing `hits` (the spread throws and is caught) leave the
   * state as it was.
   */
  function Step(st: ListingState, o: Outcome): (r: ListingState)
    ensures st.data <= r.data && st.page <= r.page && r.search == st.search
    ensures r.page == st.page <==> r == st
  {
    match o
    case Resolved(status, hits) =>
      if status == 200 then
        match hits
        case Some(h) => st.(data := st.data + h, page := st.page + 1)
        case None => st
      else st
    case Rejected(_) => st
  }

  /** The state after the fetch outcomes `os`, in order, starting from `st`. */
  function Run(st: ListingState, os: seq<Outcome>): (r: ListingState)
    ensures st.data <= r.data && st.page <= r.page && r.search == st.search
    decreases |os|
  {
    if os == [] then st else Run(Step(st, os[0]), os[1..])
  }

  /** Everything the outcomes deliver, concatenated in arrival order. */
  function AllReceived(os: seq<Outcome>): seq<Record> {
    if os == [] then [] else Received(os[0]) + AllReceived(os[1..])
  }

  /** How many of the outcomes deliver a page. */
  function Deliveries(os: seq<Outcome>): (n: nat)
    ensures n <= |os|
  {
    if os == [] then 0 else (if os[0].Delivers() then 1 else 0) + Deliveries(os[1..])
  }

  /**
   * A single fetch either appends the delivered hits and advances the page by
   * one, or changes nothing; it never touches the search text.
   */
  lemma StepAppends(st: ListingState, o: Outcome)
    ensures Step(st, o).data == st.data + Received(o)
    ensures Step(st, o).page == st.page + (if o.Delivers() then 1 else 0)
    ensures Step(st, o).search == st.search
    ensures !o.Delivers() ==> Step(st, o) == st
  {
    if !o.Delivers() {
      assert st.data + [] == st.data;
    }
  }

  /**
   * Replaying outcomes appends everything they deliver, in order, after the
   * records already held, and advances the page once per delivery.
   */
  lemma {:induction false} RunAccumulates(st: ListingState, os: seq<Outcome>)
    ensures Run(st, os).data == st.data + AllReceived(os)
    ensures Run(st, os).page == st.page + Deliveries(os)
    ensures Run(st, os).search == st.search
    decreases |os|
  {
    if os == [] {
      assert st.data + [] == st.data;
    } else {
      StepAppends(st, os[0]);
      RunAccumulates(Step(st, os[0]), os[1..]);
      assert st.data + Received(os[0]) + AllReceived(os[1..])
          == st.data + (Received(os[0]) + AllReceived(os[1..]));
    }
  }

  /** Replaying a prefix, then the rest, is replaying the whole. */
  lemma {:induction false} RunSplit(st: ListingState, os: seq<Outcome>, j: nat)
    requires j <= |os|
    ensures Run(st, os) == Run(Run(st, os[..j]), os[j..])
    decreases j
  {
    if j > 0 {
      assert os[..j][0] == os[0] && os[..j][1..] == os[1..][..j - 1];
      assert os[1..][j - 1..] == os[j..];
      RunSplit(Step(st, os[0]), os[1..], j - 1);
    } else {
      assert os[..0] == [] && os[0..] == os;
    }
  }

  /**
   * The list never shrinks or changes what it already holds: at any later
   * point of a run, the earlier list is a prefix of the later one, and the
   * page cursor has not gone back.
   */
  lemma NeverShrinks(st: ListingState, os: seq<Outcome>, j: nat, k: nat)
    requires j <= k <= |os|
    ensures Run(st, os[..j]).data <= Run(st, os[..k]).data
    ensures |Run(st, os[..j]).data| <= |Run(st, os[..k]).data|
    ensures Run(st, os[..j]).page <= Run(st, os[..k]).page
  {
    var pre := os[..k];
    RunSplit(st, pre, j);
    assert pre[..j] == os[..j];
    RunAccumulates(Run(st, os[..j]), pre[j..]);
  }

  /**
   * From the initial state, `n` fetches that all deliver leave the page
   * cursor at `n` and the list equal to the delivered hit lists
   * concatenated in order.
   */
  lemma FromInitialAllDelivered(os: seq<Outcome>)
    requires forall i :: 0 <= i < |os| ==> os[i].Delivers()
    ensures Run(Initial, os).page == |os|
    ensures Run(Initial, os).data == AllReceived(os)
    ensures Run(Initial, os).search == ""
  {
    RunAccumulates(Initial, os);
    AllDeliver(os);
  }

  lemma {:induction false} AllDeliver(os: seq<Outcome>)
    requires forall i :: 0 <= i < |os| ==> os[i].Delivers()
    ensures Deliveries(os) == |os|
  {
    if os != [] {
      assert forall i :: 0 <= i < |os| - 1 ==> os[1..][i] == os[i + 1];
      AllDeliver(os[1..]);
    }
  }

  /**
   * Whatever the search text, a fetch only adds to the end of the rendered
   * list: the new view is the old view followed by the view of the
   * delivered hits.
   */
  lemma ViewAfterStep(st: ListingState, o: Outcome)
    ensures View(Step(st, o).data, st.search) == View(st.data, st.search) + View(Received(o), st.search)
  {
    StepAppends(st, o);
    ViewConcat(st.data, Received(o), st.search);
  }
}
