/**
 * The `Home` list screen as an object: its `page`, `data` and `search`
 * state fields and the handlers that update them, each proved against the
 * state-value specification in `Paging`.
 */
module HomeScreen {
  import opened Wrappers
  import opened Text
  import opened Records
  import opened SearchView
  import opened Paging

  class Home {
    /** Zero-based cursor of the next page to request. */
    var page: nat
    /** Every record received so far, in arrival order. */
    var data: seq<Record>
    /** The text typed into the search box. */
    var search: string

    /** The state fields as one value. */
    function State(): ListingState
      reads this
    {
      ListingState(page, data, search)
    }

    /** The list handed to the renderer. */
    function Shown(): seq<Record>
      reads this
    {
      View(data, search)
    }

    /** A freshly constructed screen: first page, no records, empty search. */
    constructor ()
      ensures State() == Initial
      ensures page == 0 && data == [] && search == ""
    {
      page, data, search := 0, [], "";
    }

    /**
     * Handles the awaited response to the request for page `page`. Only a
     * status-200 response whose `hits` can be spread changes anything; every
     * failure is caught inside the handler.
     */
    method GetData(o: Outcome)
      modifies this
      ensures State() == Step(old(State()), o)
      ensures o.Delivers() ==> data == old(data) + o.hits.value && page == old(page) + 1
      ensures !o.Delivers() ==> data == old(data) && page == old(page)
      ensures search == old(search)
    {
      match o {
        case Resolved(status, hits) =>
          if status == 200 {
            match hits {
              case Some(h) =>
                data, page := data + h, page + 1;
              case None =>
                // spreading a missing `hits` throws; the handler catches and logs it
            }
          }
        case Rejected(_) =>
          // the rejected request is caught and logged
      }
    }

    /** The first fetch at mount, followed by re-setting `data` to a copy of itself. */
    method InitialData(o: Outcome)
      modifies this
      ensures State() == Step(old(State()), o)
    {
      GetData(o);
      data := data[..];
    }

    /** The search box's `onChangeText`: replaces the search text and nothing else. */
    method ChangeText(text: string)
      modifies this
      ensures search == text
      ensures data == old(data) && page == old(page)
      ensures Shown() == View(old(data), text)
    {
      search := text;
    }

    /**
     * Pressing the `k`-th rendered item navigates to the details screen with
     * that record; the state is not touched. The record comes from `data`
     * and matches the current search.
     */
    method Press(k: nat) returns (nav: Navigation)
      requires k < |Shown()|
      ensures nav == Navigate("Details", DetailsParams(Shown()[k]))
      ensures nav.params.data in data && Matches(nav.params.data, search)
    {
      ViewIsFilter(data, search);
      nav := Navigate("Details", DetailsParams(Shown()[k]));
    }
  }

  /** The record used by the screen's test suite. */
  function SampleHit(): Record {
    Record("Title Text", "Peter Parker", Some("https://abc.com"),
           "2023-01-01T07:00:00.000Z", ["tag1", "tag2"])
  }

  /** The search "Peter" finds the sample record by its author. */
  lemma PeterMatchesAuthor()
    ensures Contains(Lower(SampleHit().author), Lower("Peter"))
    ensures Matches(SampleHit(), "Peter")
  {
    var author, needle := Lower("Peter Parker"), Lower("Peter");
    assert author[..5] == "peter" == needle;
    assert IsPrefix(needle, author);
  }

  /** The search "Jest" matches neither the title nor the author of the sample record, so it filters that record out. */
  lemma JestMatchesNothing()
    ensures !Matches(SampleHit(), "Jest")
    ensures View([SampleHit()], "Jest") == []
  {
    assert 'j' !in Lower("Title Text") by {
      assert Lower("Title Text") == "title text";
    }
    assert 'j' !in Lower("Peter Parker") by {
      assert Lower("Peter Parker") == "peter parker";
    }
    JestAbsent("Title Text");
    JestAbsent("Peter Parker");
    assert [SampleHit()][1..] == [];
  }

  /** A field without the letter 'j' in either case cannot contain "Jest". */
  lemma JestAbsent(field: string)
    requires 'j' !in Lower(field)
    ensures !Contains(Lower(field), Lower("Jest"))
  {
    var needle := Lower("Jest");
    assert needle[0] == 'j';
    if Contains(Lower(field), needle) {
      ContainsFirstChar(Lower(field), needle);
      assert false;
    }
  }

  /** The test-suite scenarios, replayed against the contracts above. */
  method Scenarios() {
    var home := new Home();
    home.InitialData(Resolved(200, Some([SampleHit()])));
    assert home.page == 1 && home.data == [SampleHit()];
    assert home.Shown() == [SampleHit()];

    home.ChangeText("Peter");
    PeterMatchesAuthor();
    assert home.Shown() == [SampleHit()];
    home.ChangeText("Jest");
    JestMatchesNothing();
    assert home.Shown() == [];

    home.ChangeText("");
    var nav := home.Press(0);
    assert nav == Navigate("Details", DetailsParams(SampleHit()));

    home.GetData(Rejected("network error"));
    assert home.page == 1 && home.data == [SampleHit()];
  }
}
