/**
 * The sector exploration script test1.py: the broker's sector hierarchy is
 * searched for the `Finance` sector and its `Housing` sub-sector, and the
 * stocks of that sub-sector are fetched only when both codes were found.
 * The two HTTP fetches are parameters; only what the script does with their
 * payloads is modelled.
 */
module SectorSearch {
  import opened Wrappers

  const FinanceName: string := "Finance"
  const HousingName: string := "Housing"

  // ---------------------------------------------------------------------
  // Records of the sector hierarchy
  // ---------------------------------------------------------------------

  datatype SubSector = SubSector(name: string, code: string)

  /**
   * A sector record: `name` and `code` are read with `.get`, so either may be
   * missing; `subSectors` is None when the record has no `sub_sectors` key.
   */
  datatype Sector = Sector(name: Option<string>, code: Option<string>, subSectors: Option<seq<SubSector>>)

  predicate IsFinance(s: Sector) {
    s.name == Some(FinanceName)
  }

  /** `sector.get('sub_sectors', [])` */
  function SubsOf(s: Sector): (subs: seq<SubSector>)
    ensures s.subSectors.None? ==> subs == []
    ensures s.subSectors.Some? ==> subs == s.subSectors.value
  {
    s.subSectors.GetOr([])
  }

  // ---------------------------------------------------------------------
  // What the search finds
  // ---------------------------------------------------------------------

  /** The code of the first sub-sector named `Housing`, if any: the inner loop and its `break`. */
  function FirstHousing(subs: seq<SubSector>): (r: Option<string>)
    ensures r.None? <==> forall k :: 0 <= k < |subs| ==> subs[k].name != HousingName
  {
    if subs == [] then None
    else if subs[0].name == HousingName then Some(subs[0].code)
    else
      assert forall k :: 1 <= k < |subs| ==> subs[k] == subs[1..][k - 1];
      FirstHousing(subs[1..])
  }

  /** First wins: the code found is that of the first `Housing` entry, whatever follows it. */
  lemma {:induction false} FirstHousingAt(subs: seq<SubSector>, k: nat)
    requires k < |subs| && subs[k].name == HousingName
    requires forall j :: 0 <= j < k ==> subs[j].name != HousingName
    ensures FirstHousing(subs) == Some(subs[k].code)
  {
    if k > 0 {
      FirstHousingAt(subs[1..], k - 1);
    }
  }

  /** `finance_sector_code` after the loop: the code of the last sector named `Finance`. */
  function FinanceCode(sectors: seq<Sector>): Option<string> {
    if sectors == [] then None
    else if IsFinance(sectors[|sectors| - 1]) then sectors[|sectors| - 1].code
    else FinanceCode(sectors[..|sectors| - 1])
  }

  /**
   * `housing_sub_code` after the loop: the first `Housing` code of the last
   * `Finance` sector that has one.
   */
  function HousingCode(sectors: seq<Sector>): Option<string> {
    if sectors == [] then None
    else
      var last := sectors[|sectors| - 1];
      if IsFinance(last) && FirstHousing(SubsOf(last)).Some? then FirstHousing(SubsOf(last))
      else HousingCode(sectors[..|sectors| - 1])
  }

  /** The fetch gate: both codes present and not empty. */
  predicate ShouldFetch(financeCode: Option<string>, housingCode: Option<string>) {
    Truthy(financeCode) && Truthy(housingCode)
  }

  lemma {:induction false} NoFinanceCode(sectors: seq<Sector>)
    requires forall k :: 0 <= k < |sectors| ==> !IsFinance(sectors[k])
    ensures FinanceCode(sectors) == None && HousingCode(sectors) == None
    ensures !ShouldFetch(FinanceCode(sectors), HousingCode(sectors))
  {
    if sectors != [] {
      NoFinanceCode(sectors[..|sectors| - 1]);
    }
  }

  /** With no sector named `Finance` nothing is fetched. */
  lemma NoFinanceNoFetch(sectors: seq<Sector>)
    requires forall k :: 0 <= k < |sectors| ==> !IsFinance(sectors[k])
    ensures !ShouldFetch(FinanceCode(sectors), HousingCode(sectors))
  {
    NoFinanceCode(sectors);
  }

  /** Last wins: the outer loop has no `break`. */
  lemma {:induction false} FinanceCodeIsLast(sectors: seq<Sector>, k: nat)
    requires k < |sectors| && IsFinance(sectors[k])
    requires forall j :: k < j < |sectors| ==> !IsFinance(sectors[j])
    ensures FinanceCode(sectors) == sectors[k].code
    decreases |sectors|
  {
    if k < |sectors| - 1 {
      FinanceCodeIsLast(sectors[..|sectors| - 1], k);
    }
  }

  /** Sectors not named `Finance`, and their sub-sectors, leave both codes as they were. */
  lemma IgnoresOtherSectors(sectors: seq<Sector>, s: Sector)
    requires !IsFinance(s)
    ensures FinanceCode(sectors + [s]) == FinanceCode(sectors)
    ensures HousingCode(sectors + [s]) == HousingCode(sectors)
  {
    assert (sectors + [s])[..|sectors|] == sectors;
  }

  /** A later `Finance` sector without `Housing` keeps the earlier housing code, and takes over the sector code. */
  lemma LaterFinanceWithoutHousing(sectors: seq<Sector>, s: Sector)
    requires IsFinance(s) && FirstHousing(SubsOf(s)).None?
    ensures FinanceCode(sectors + [s]) == s.code
    ensures HousingCode(sectors + [s]) == HousingCode(sectors)
  {
    assert (sectors + [s])[..|sectors|] == sectors;
  }

  /**
   * The housing code is that of a `Finance` sector with a `Housing`
   * sub-sector after which no `Finance` sector has one, or None when there is
   * no such sector.
   */
  lemma {:induction false} HousingCodeIs(sectors: seq<Sector>)
    ensures HousingCode(sectors).None? <==>
      forall k :: 0 <= k < |sectors| && IsFinance(sectors[k]) ==> FirstHousing(SubsOf(sectors[k])).None?
    ensures HousingCode(sectors).Some? ==>
      exists k :: 0 <= k < |sectors| && IsFinance(sectors[k]) && HousingCode(sectors) == FirstHousing(SubsOf(sectors[k]))
        && forall j :: k < j < |sectors| && IsFinance(sectors[j]) ==> FirstHousing(SubsOf(sectors[j])).None?
  {
    if sectors != [] {
      var init := sectors[..|sectors| - 1];
      HousingCodeIs(init);
      assert forall k :: 0 <= k < |init| ==> init[k] == sectors[k];
      var last := sectors[|sectors| - 1];
      if IsFinance(last) && FirstHousing(SubsOf(last)).Some? {
        assert HousingCode(sectors) == FirstHousing(SubsOf(sectors[|sectors| - 1]));
      } else if HousingCode(init).Some? {
        var k :| 0 <= k < |init| && IsFinance(init[k]) && HousingCode(init) == FirstHousing(SubsOf(init[k]))
          && forall j :: k < j < |init| && IsFinance(init[j]) ==> FirstHousing(SubsOf(init[j])).None?;
        assert sectors[k] == init[k];
      }
    }
  }

  // ---------------------------------------------------------------------
  // Part B of the script: the search itself
  // ---------------------------------------------------------------------

  /** The nested loop of the script, over the sectors returned by the first fetch. */
  method FindCodes(sectors: seq<Sector>) returns (financeCode: Option<string>, housingCode: Option<string>)
    ensures financeCode == FinanceCode(sectors)
    ensures housingCode == HousingCode(sectors)
  {
    financeCode, housingCode := None, None;
    var i := 0;
    while i < |sectors|
      invariant i <= |sectors|
      invariant financeCode == FinanceCode(sectors[..i])
      invariant housingCode == HousingCode(sectors[..i])
    {
      var sector := sectors[i];
      var subs := SubsOf(sector);
      assert sectors[..i + 1][..i] == sectors[..i];
      if sector.name == Some(FinanceName) {
        financeCode := sector.code;
        var j := 0;
        while j < |subs|
          invariant j <= |subs|
          invariant forall k :: 0 <= k < j ==> subs[k].name != HousingName
          invariant housingCode == HousingCode(sectors[..i])
        {
          if subs[j].name == HousingName {
            housingCode := Some(subs[j].code);
            FirstHousingAt(subs, j);
            break;
          }
          j := j + 1;
        }
      }
      assert sectors[..i + 1][i] == sector;
      i := i + 1;
    }
    assert sectors[..i] == sectors;
  }

  // ---------------------------------------------------------------------
  // The fetch helpers
  // ---------------------------------------------------------------------

  /**
   * What `requests.get(...).json()` gave: a JSON object with an optional
   * integer `code` and an optional `data` list, or an exception on the way.
   */
  datatype Fetched<T> = Raised | Payload(code: Option<int>, data: Option<seq<T>>)

  /**
   * `if data.get('code') == 200: return data['data']` and `return []`; a
   * missing `data` key raises inside the `try` and also gives `[]`.
   */
  function PayloadData<T>(f: Fetched<T>): (r: seq<T>)
    ensures f.Payload? && f.code == Some(200) && f.data.Some? ==> r == f.data.value
    ensures !(f.Payload? && f.code == Some(200)) ==> r == []
    ensures f.Payload? && f.data.None? ==> r == []
  {
    match f
    case Raised => []
    case Payload(code, data) => if code == Some(200) then data.GetOr([]) else []
  }

  /** The query string `get_stocks` sends. */
  datatype StocksQuery = StocksQuery(sector: string, subsector: string, sortBy: string, sortType: string, page: int)

  const SortBy: string := "percentage_change"
  const SortType: string := "asc"

  /** `params` of `get_stocks(sector_code, subsector_code, page=1)`. */
  function StocksParams(sectorCode: string, subsectorCode: string, page: int := 1): (q: StocksQuery)
    ensures q.sector == sectorCode && q.subsector == subsectorCode && q.page == page
    ensures q.sortBy == SortBy && q.sortType == SortType
  {
    StocksQuery(sectorCode, subsectorCode, SortBy, SortType, page)
  }

  /** The script calls `get_stocks` with two arguments: the first page. */
  lemma DefaultPage(sectorCode: string, subsectorCode: string)
    ensures StocksParams(sectorCode, subsectorCode).page == 1
  {
  }

  // ---------------------------------------------------------------------
  // The script, parts A to C
  // ---------------------------------------------------------------------

  /**
   * Fetches the hierarchy, searches it and fetches the stocks of
   * Finance/Housing when both codes were found; None when the script prints
   * that it could not find them.
   */
  method Explore<T>(sectorsFetch: Fetched<Sector>, stocksFetch: StocksQuery -> Fetched<T>)
    returns (stocks: Option<seq<T>>)
    ensures var all := PayloadData(sectorsFetch);
      var f, h := FinanceCode(all), HousingCode(all);
      && (stocks.Some? <==> ShouldFetch(f, h))
      && (stocks.Some? ==> stocks.value == PayloadData(stocksFetch(StocksParams(f.value, h.value))))
  {
    var allSectors := PayloadData(sectorsFetch);
    var financeCode, housingCode := FindCodes(allSectors);
    if Truthy(financeCode) && Truthy(housingCode) {
      stocks := Some(PayloadData(stocksFetch(StocksParams(financeCode.value, housingCode.value))));
    } else {
      stocks := None;
    }
  }
}
