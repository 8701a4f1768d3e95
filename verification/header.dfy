/** The site header's search panel: it filters a fixed list of five sample books by the
    typed query, on the title, the author or either according to the chosen tab, and
    shows a prompt, the results with their count, or a "no results" message. */
module Header {
  import opened Values
  import opened Seqs

  datatype MockBook = MockBook(id: int, title: string, author: string, category: string)

  const MockBooks: seq<MockBook> := [
    MockBook(1, "The Great Gatsby", "F. Scott Fitzgerald", "Classic"),
    MockBook(2, "To Kill a Mockingbird", "Harper Lee", "Fiction"),
    MockBook(3, "1984", "George Orwell", "Dystopian"),
    MockBook(4, "Pride and Prejudice", "Jane Austen", "Romance"),
    MockBook(5, "The Catcher in the Rye", "J.D. Salinger", "Fiction")
  ]

  /** Whether a book matches under the chosen tab: "book" looks at the title, "author"
      at the author, anything else at either. */
  predicate TabMatches(b: MockBook, query: string, searchType: string) {
    if searchType == "book" then ContainsIgnoreCase(b.title, query)
    else if searchType == "author" then ContainsIgnoreCase(b.author, query)
    else ContainsIgnoreCase(b.title, query) || ContainsIgnoreCase(b.author, query)
  }

  function Matcher(query: string, searchType: string): MockBook -> bool {
    (b: MockBook) => TabMatches(b, query, searchType)
  }

  /** `filteredResults`. */
  function FilteredResults(query: string, searchType: string): seq<MockBook> {
    Filter(MockBooks, Matcher(query, searchType))
  }

  /** The results keep the sample order and hold exactly the matching samples. */
  lemma FilteredResultsExact(query: string, searchType: string)
    ensures IsSubsequence(FilteredResults(query, searchType), MockBooks)
    ensures forall b :: b in FilteredResults(query, searchType) <==> b in MockBooks && TabMatches(b, query, searchType)
  {
    FilterIsSubsequence(MockBooks, Matcher(query, searchType));
    forall b
      ensures b in FilteredResults(query, searchType) <==> b in MockBooks && TabMatches(b, query, searchType)
    {
      FilterMembership(MockBooks, Matcher(query, searchType), b);
    }
  }

  /** The "book" tab ignores the author and the "author" tab ignores the title. */
  lemma TabsLookAtOneField(b: MockBook, query: string)
    ensures TabMatches(b, query, "book") <==> ContainsIgnoreCase(b.title, query)
    ensures TabMatches(b, query, "author") <==> ContainsIgnoreCase(b.author, query)
    ensures TabMatches(b, query, "all") <==> TabMatches(b, query, "book") || TabMatches(b, query, "author")
  {
  }

  /** An empty query matches every sample on every tab. */
  lemma EmptyQueryMatchesAll(searchType: string)
    ensures FilteredResults("", searchType) == MockBooks
  {
    forall b | b in MockBooks
      ensures Matcher("", searchType)(b)
    {
      EmptyTermMatchesAll(b.title);
      EmptyTermMatchesAll(b.author);
    }
    FilterAll(MockBooks, Matcher("", searchType));
  }

  /** What the panel shows. */
  datatype Panel = Prompt | Results(items: seq<MockBook>, countText: string) | NoResults

  /** "Found N result", with an "s" unless N is 1. */
  function CountLabel(n: nat): string {
    "Found " + NatToDecimal(n) + " result" + (if n != 1 then "s" else "")
  }

  /** The label ends in "results" exactly when the count is not 1. */
  lemma CountLabelPlural(n: nat)
    ensures EndsWith(CountLabel(n), "results") <==> n != 1
    ensures EndsWith(CountLabel(n), "result") <==> n == 1
  {
    var text := CountLabel(n);
    if n != 1 {
      assert text[|text| - 7..] == "results";
      assert text[|text| - 1] == 's';
    } else {
      assert text[|text| - 6..] == "result";
      assert text[|text| - 1] == 't';
    }
  }

  /** An empty query shows the prompt even though every sample matches it. */
  function PanelFor(query: string, searchType: string): (p: Panel)
    ensures p.Prompt? <==> query == ""
    ensures p.Results? ==> p.items == FilteredResults(query, searchType) && p.items != []
    ensures p.Results? ==> p.countText == CountLabel(|p.items|)
    ensures p.NoResults? ==> query != "" && FilteredResults(query, searchType) == []
  {
    var results := FilteredResults(query, searchType);
    if query == "" then Prompt
    else if |results| > 0 then Results(results, CountLabel(|results|))
    else NoResults
  }

  /** The header's search state. */
  datatype SearchPanel = SearchPanel(open: bool, query: string, searchType: string)

  /** The close button hides the panel and clears the query, keeping the tab. */
  function Close(s: SearchPanel): (r: SearchPanel)
    ensures !r.open && r.query == "" && r.searchType == s.searchType
    ensures PanelFor(r.query, r.searchType) == Prompt
  {
    SearchPanel(false, "", s.searchType)
  }
}
