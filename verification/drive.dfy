/** The remote drive as the two crawlers see it: listings of items, each item
    a name, an identifier and an optional `folder` facet, and the year-folder
    name filter both crawlers share. */
module Drive {
  import opened Common

  /** The `folder` facet of a drive item. Graph omits it for plain files; when
      present it is a JSON object, which Python treats as false when empty. */
  datatype FolderFacet = NoFacet | EmptyFacet | Facet

  datatype Item = Item(name: string, id: string, folder: FolderFacet)

  /** `item.get("folder") is not None`: the test at the client, year and
      category levels of the SharePoint crawl. */
  predicate IsFolder(it: Item) {
    it.folder != NoFacet
  }

  /** `item.get("folder")` used as a condition: the test while searching for
      the Business and Clients folders. */
  predicate IsTruthyFolder(it: Item) {
    it.folder == Facet
  }

  /** The drive's answers to "list the children of X": X is a path for the
      SharePoint crawler and an item id for the OneDrive crawler. A location
      missing from the map is a listing call that raises. */
  type Listing = map<string, seq<Item>>

  /** Why a synchronisation job stops with an exception. */
  datatype SyncError =
    | ListingFailed(location: string)   // a Graph listing call raised
    | NoClientsRoot                     // `next(...)` found no clients folder
    | UpsertFailed(index: nat)          // the index-th table write raised

  /** The position of the first item in listing order that satisfies `p`:
      the search loops (and `next(...)`) both crawlers use to find a folder. */
  function FirstWhere(items: seq<Item>, p: Item -> bool): (r: Option<nat>)
    ensures r.None? <==> forall i :: 0 <= i < |items| ==> !p(items[i])
    ensures r.Some? ==> r.value < |items| && p(items[r.value]) && forall j :: 0 <= j < r.value ==> !p(items[j])
  {
    if |items| == 0 then None
    else if p(items[0]) then Some(0)
    else
      match FirstWhere(items[1..], p)
      case None => None
      case Some(i) => Some(i + 1)
  }

  /** Two searches that test the items pairwise alike stop at the same place. */
  lemma {:induction false} FirstWhereAgree(a: seq<Item>, b: seq<Item>, p: Item -> bool, q: Item -> bool)
    requires |a| == |b| && forall i :: 0 <= i < |a| ==> p(a[i]) == q(b[i])
    ensures FirstWhere(a, p) == FirstWhere(b, q)
  {
    if |a| > 0 {
      FirstWhereAgree(a[1..], b[1..], p, q);
    }
  }

  // ---------------------------------------------------------------------------
  // Year folder names
  // ---------------------------------------------------------------------------

  /** A year folder name as intended: exactly four ASCII digits. */
  predicate IsYearName(s: string) {
    |s| == 4 && AllAsciiDigits(s)
  }

  /** Characters in Unicode category Nd, which Python's `\d` matches in a
      `str` pattern. Only the ASCII digits and five other decimal-digit
      blocks are listed; the real class has several dozen blocks. */
  predicate IsUnicodeDigit(c: char) {
    || IsAsciiDigit(c)
    || ('\U{660}' <= c <= '\U{669}')     // Arabic-Indic
    || ('\U{6F0}' <= c <= '\U{6F9}')     // Extended Arabic-Indic
    || ('\U{966}' <= c <= '\U{96F}')     // Devanagari
    || ('\U{9E6}' <= c <= '\U{9EF}')     // Bengali
    || ('\U{FF10}' <= c <= '\U{FF19}')   // Fullwidth
  }

  predicate FourUnicodeDigits(s: string) {
    |s| >= 4 && forall i :: 0 <= i < 4 ==> IsUnicodeDigit(s[i])
  }

  /** `re.match(r"^\d{4}$", s)` as written: `\d` is any decimal digit and
      `$` also matches just before a final newline. */
  predicate YearPatternAsWritten(s: string) {
    FourUnicodeDigits(s) && (|s| == 4 || (|s| == 5 && s[4] == '\n'))
  }

  /** Everything the intended filter keeps, the pattern as written keeps too. */
  lemma YearNameMatchesPattern(s: string)
    ensures IsYearName(s) ==> YearPatternAsWritten(s)
  {
  }

  /** The pattern as written also keeps "2024\n" and the full-width "２０２４",
      neither of which is a year name. */
  lemma YearPatternAcceptsMore()
    ensures YearPatternAsWritten("2024\n") && !IsYearName("2024\n")
    ensures YearPatternAsWritten("\U{FF12}\U{FF10}\U{FF12}\U{FF14}")
    ensures !IsYearName("\U{FF12}\U{FF10}\U{FF12}\U{FF14}")
  {
    assert !IsAsciiDigit("\U{FF12}\U{FF10}\U{FF12}\U{FF14}"[0]);
  }

  /** A folder kept by the pattern as written but not by the intended filter
      can never be named by a document's year: `str(year)` has no newline and
      no non-ASCII digit. */
  lemma ExtraYearNamesUnreachable(s: string, year: int)
    requires YearPatternAsWritten(s) && !IsYearName(s)
    ensures IntToDecimal(year) != s
  {
  }

  /** The intended year names are exactly the renderings of the years
      1000..9999 plus the names with a leading zero: a year folder is named by
      some document year iff it has no leading zero. */
  lemma YearNameIsRenderedYear(s: string)
    ensures (IsYearName(s) && s[0] != '0') <==> (exists y :: 1000 <= y <= 9999 && IntToDecimal(y) == s)
  {
    if IsYearName(s) && s[0] != '0' {
      var y := DecimalValue(s);
      DecimalRender(s);
      DecimalLength(y);
      assert 1000 <= y <= 9999 && IntToDecimal(y) == s;
    }
    if exists y :: 1000 <= y <= 9999 && IntToDecimal(y) == s {
      var y :| 1000 <= y <= 9999 && IntToDecimal(y) == s;
      DecimalLength(y);
    }
  }
}
