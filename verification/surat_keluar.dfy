/** The outgoing-letter routes of `app/routes/surat_keluar.py`: the listing
    (query-parameter whitelisting, the owner filter for members, the search, the
    inclusive date bounds and the ordering) and the guards stacked on the edit,
    delete and download routes. */
module SuratKeluarRoutes {
  import opened Wrappers
  import opened Text
  import opened Dates
  import opened Models
  import opened Decorators
  import opened SqlLike

  /** One row of `surat_keluar`; the timestamps are not modelled. */
  datatype SuratKeluar = SuratKeluar(
    id: nat,
    nomorSurat: string,
    tujuanSurat: string,
    tanggalSurat: Date,
    perihal: string,
    filePath: string,
    uploadedByUserId: nat)

  const SEARCH_FIELDS: seq<string> := ["nomor_surat", "tujuan_surat", "perihal"]
  const SORT_FIELDS: seq<string> := ["nomor_surat", "tujuan_surat", "tanggal_surat", "perihal"]
  const SORT_ORDERS: seq<string> := ["asc", "desc"]

  /** The query string, name to value. */
  type QueryArgs = map<string, string>

  /** `request.args.get(name, default, type=str)`. */
  function Arg(args: QueryArgs, name: string, default: string): (v: string)
    ensures name in args ==> v == args[name]
    ensures name !in args ==> v == default
  {
    if name in args then args[name] else default
  }

  datatype ListParams = ListParams(
    search: string,
    searchBy: string,
    startDate: string,
    endDate: string,
    sortBy: string,
    sortOrder: string)

  /** The parameters as read, with their defaults. */
  function ReadParams(args: QueryArgs): ListParams {
    ListParams(
      Arg(args, "search", ""),
      Arg(args, "search_by", "nomor_surat"),
      Arg(args, "start_date", ""),
      Arg(args, "end_date", ""),
      Arg(args, "sort_by", "tanggal_surat"),
      Arg(args, "sort_order", "desc"))
  }

  /** A value outside its whitelist is replaced by the default. */
  function Whitelist(value: string, allowed: seq<string>, default: string): (r: string)
    requires default in allowed
    ensures r in allowed
    ensures value in allowed ==> r == value
    ensures value !in allowed ==> r == default
  {
    if value in allowed then value else default
  }

  /** The whitelisting of `search_by`, `sort_by` and `sort_order`. */
  function NormalizeParams(p: ListParams): (r: ListParams)
    ensures r.searchBy in SEARCH_FIELDS && r.sortBy in SORT_FIELDS && r.sortOrder in SORT_ORDERS
    ensures r.searchBy == (if p.searchBy in SEARCH_FIELDS then p.searchBy else "nomor_surat")
    ensures r.sortBy == (if p.sortBy in SORT_FIELDS then p.sortBy else "tanggal_surat")
    ensures r.sortOrder == (if p.sortOrder in SORT_ORDERS then p.sortOrder else "desc")
    ensures r.search == p.search && r.startDate == p.startDate && r.endDate == p.endDate
  {
    p.(searchBy := Whitelist(p.searchBy, SEARCH_FIELDS, "nomor_surat"),
       sortBy := Whitelist(p.sortBy, SORT_FIELDS, "tanggal_surat"),
       sortOrder := Whitelist(p.sortOrder, SORT_ORDERS, "desc"))
  }

  /** Whitelisting twice is whitelisting once. */
  lemma NormalizeIdempotent(p: ListParams)
    ensures NormalizeParams(NormalizeParams(p)) == NormalizeParams(p)
  {
  }

  /** With no query string at all, the listing searches `nomor_surat`, applies
      no search or date filter, and sorts newest first by `tanggal_surat`. */
  lemma DefaultParams()
    ensures NormalizeParams(ReadParams(map[])) ==
      ListParams("", "nomor_surat", "", "", "tanggal_surat", "desc")
  {
  }

  /** The rows of `rows` that satisfy `keep`, in order. */
  function Filter(rows: seq<SuratKeluar>, keep: SuratKeluar -> bool): (r: seq<SuratKeluar>)
    ensures forall x :: multiset(r)[x] == if keep(x) then multiset(rows)[x] else 0
    decreases |rows|
  {
    if |rows| == 0 then []
    else
      var rest := Filter(rows[1..], keep);
      assert rows == [rows[0]] + rows[1..];
      if keep(rows[0]) then [rows[0]] + rest else rest
  }

  /** The text column a search reads. */
  function SearchColumn(x: SuratKeluar, searchBy: string): string {
    if searchBy == "tujuan_surat" then x.tujuanSurat
    else if searchBy == "perihal" then x.perihal
    else x.nomorSurat
  }

  /** The owner filter: a member sees only the rows it uploaded. */
  function OwnerFilter(p: Principal): SuratKeluar -> bool {
    (x: SuratKeluar) => p.Authenticated? && p.role == ANGGOTA ==> x.uploadedByUserId == p.id
  }

  /** The search filter; an empty search keeps everything. */
  function SearchFilter(search: string, searchBy: string): SuratKeluar -> bool {
    (x: SuratKeluar) => search != "" ==> ILike(SearchColumn(x, searchBy), "%" + search + "%")
  }

  /** A date bound that parses; an empty or unparseable bound is no bound. */
  function Bound(s: string): Option<Date> {
    if s == "" then None else ParseIsoDate(s)
  }

  /** The inclusive date bounds on `tanggal_surat`. */
  function DateFilter(startDate: string, endDate: string): SuratKeluar -> bool {
    (x: SuratKeluar) =>
      && (Bound(startDate).Some? ==> DateLe(Bound(startDate).value, x.tanggalSurat))
      && (Bound(endDate).Some? ==> DateLe(x.tanggalSurat, Bound(endDate).value))
  }

  // ------------------------------------------------------------- ordering

  /** Lexicographic order on integer keys. */
  predicate LexLe(a: seq<int>, b: seq<int>)
    decreases |a|
  {
    |a| == 0 || (|b| > 0 && (a[0] < b[0] || (a[0] == b[0] && LexLe(a[1..], b[1..]))))
  }

  lemma {:induction false} LexTotal(a: seq<int>, b: seq<int>)
    ensures LexLe(a, b) || LexLe(b, a)
    decreases |a|
  {
    if |a| > 0 && |b| > 0 && a[0] == b[0] {
      LexTotal(a[1..], b[1..]);
    }
  }

  lemma {:induction false} LexTransitive(a: seq<int>, b: seq<int>, c: seq<int>)
    requires LexLe(a, b) && LexLe(b, c)
    ensures LexLe(a, c)
    decreases |a|
  {
    if |a| > 0 && a[0] == b[0] && b[0] == c[0] {
      LexTransitive(a[1..], b[1..], c[1..]);
    }
  }

  /** The sort key of a date column. */
  function DateKey(d: Date): seq<int> {
    [d.year, d.month, d.day]
  }

  /** Ordering by the date key is chronological order. */
  lemma DateKeyIsChronological(a: Date, b: Date)
    ensures LexLe(DateKey(a), DateKey(b)) <==> DateLe(a, b)
  {
    var ka, kb := DateKey(a), DateKey(b);
    assert ka[1..] == [a.month, a.day] && kb[1..] == [b.month, b.day];
    assert ka[1..][1..] == [a.day] && kb[1..][1..] == [b.day];
    assert LexLe([a.day], [b.day]) <==> a.day <= b.day by {
      assert [a.day][1..] == [] && [b.day][1..] == [];
    }
    assert LexLe([a.month, a.day], [b.month, b.day]) <==>
      a.month < b.month || (a.month == b.month && a.day <= b.day);
  }

  /** The sort key of a text column: its characters as code points, the text
      ASCII-lower-cased as a case-insensitive collation compares it. */
  function TextKey(s: string): (k: seq<int>)
    ensures |k| == |s|
  {
    seq(|s|, i requires 0 <= i < |s| => Lower(s[i]) as int)
  }

  /** `getattr(SuratKeluar, sort_by, SuratKeluar.tanggal_surat)` as a key. */
  function SortKey(x: SuratKeluar, sortBy: string): seq<int> {
    if sortBy == "nomor_surat" then TextKey(x.nomorSurat)
    else if sortBy == "tujuan_surat" then TextKey(x.tujuanSurat)
    else if sortBy == "perihal" then TextKey(x.perihal)
    else DateKey(x.tanggalSurat)
  }

  /** `x` may come before `y` in the requested order. */
  predicate Before(x: SuratKeluar, y: SuratKeluar, sortBy: string, asc: bool) {
    if asc then LexLe(SortKey(x, sortBy), SortKey(y, sortBy))
    else LexLe(SortKey(y, sortBy), SortKey(x, sortBy))
  }

  lemma BeforeTotal(x: SuratKeluar, y: SuratKeluar, sortBy: string, asc: bool)
    ensures Before(x, y, sortBy, asc) || Before(y, x, sortBy, asc)
  {
    LexTotal(SortKey(x, sortBy), SortKey(y, sortBy));
  }

  /** Each row may come before the next. */
  predicate Sorted(rows: seq<SuratKeluar>, sortBy: string, asc: bool) {
    forall i :: 0 <= i < |rows| - 1 ==> Before(rows[i], rows[i + 1], sortBy, asc)
  }

  /** In a sorted sequence every row may come before every later row. */
  lemma {:induction false} SortedPairwise(rows: seq<SuratKeluar>, sortBy: string, asc: bool, i: nat, j: nat)
    requires Sorted(rows, sortBy, asc)
    requires i < j < |rows|
    ensures Before(rows[i], rows[j], sortBy, asc)
    decreases j - i
  {
    if i + 1 < j {
      SortedPairwise(rows, sortBy, asc, i + 1, j);
      var a, b, c := SortKey(rows[i], sortBy), SortKey(rows[i + 1], sortBy), SortKey(rows[j], sortBy);
      if asc {
        LexTransitive(a, b, c);
      } else {
        LexTransitive(c, b, a);
      }
    }
  }

  /** A row that may come before the head of a sorted sequence extends it. */
  lemma SortedCons(a: SuratKeluar, rows: seq<SuratKeluar>, sortBy: string, asc: bool)
    requires Sorted(rows, sortBy, asc)
    requires |rows| > 0 ==> Before(a, rows[0], sortBy, asc)
    ensures Sorted([a] + rows, sortBy, asc)
  {
    var r := [a] + rows;
    forall i | 0 <= i < |r| - 1
      ensures Before(r[i], r[i + 1], sortBy, asc)
    {
      if i > 0 {
        assert r[i] == rows[i - 1] && r[i + 1] == rows[i];
      }
    }
  }

  /** Insert `x` into a sorted sequence at the first place it fits. */
  function Insert(x: SuratKeluar, rows: seq<SuratKeluar>, sortBy: string, asc: bool): (r: seq<SuratKeluar>)
    requires Sorted(rows, sortBy, asc)
    ensures multiset(r) == multiset(rows) + multiset{x}
    ensures Sorted(r, sortBy, asc)
    ensures |r| > 0 && (r[0] == x || (|rows| > 0 && r[0] == rows[0]))
    decreases |rows|
  {
    if |rows| == 0 then [x]
    else if Before(x, rows[0], sortBy, asc) then
      SortedCons(x, rows, sortBy, asc);
      [x] + rows
    else
      assert Sorted(rows[1..], sortBy, asc) by {
        forall i | 0 <= i < |rows[1..]| - 1
          ensures Before(rows[1..][i], rows[1..][i + 1], sortBy, asc)
        {
          assert rows[1..][i] == rows[i + 1] && rows[1..][i + 1] == rows[i + 2];
        }
      }
      var rest := Insert(x, rows[1..], sortBy, asc);
      BeforeTotal(x, rows[0], sortBy, asc);
      SortedCons(rows[0], rest, sortBy, asc);
      assert rows == [rows[0]] + rows[1..];
      [rows[0]] + rest
  }

  /** `ORDER BY column ASC` or `DESC`. Rows with equal keys may come in any
      order in SQL; this model is one of the permitted orders, and the contract
      admits exactly the permitted ones: a permutation of the input, sorted. */
  function Sort(rows: seq<SuratKeluar>, sortBy: string, asc: bool): (r: seq<SuratKeluar>)
    ensures multiset(r) == multiset(rows)
    ensures Sorted(r, sortBy, asc)
    decreases |rows|
  {
    if |rows| == 0 then []
    else
      assert rows == [rows[0]] + rows[1..];
      Insert(rows[0], Sort(rows[1..], sortBy, asc), sortBy, asc)
  }

  // -------------------------------------------------------------- listing

  /** A warning shown for an unparseable date bound. */
  datatype DateWarning = BadStartDate | BadEndDate

  datatype Listing = Listing(params: ListParams, rows: seq<SuratKeluar>, warnings: seq<DateWarning>)

  datatype ListOutcome = ListRedirectToLogin | Listed(listing: Listing)

  /** A row the listing shows to `p` under normalised parameters `q`. */
  predicate Shown(p: Principal, q: ListParams, x: SuratKeluar) {
    OwnerFilter(p)(x) && SearchFilter(q.search, q.searchBy)(x) && DateFilter(q.startDate, q.endDate)(x)
  }

  /** The warnings for the bounds that are given but do not parse. */
  function DateWarnings(q: ListParams): (w: seq<DateWarning>)
    ensures BadStartDate in w <==> q.startDate != "" && ParseIsoDate(q.startDate).None?
    ensures BadEndDate in w <==> q.endDate != "" && ParseIsoDate(q.endDate).None?
  {
    (if q.startDate != "" && ParseIsoDate(q.startDate).None? then [BadStartDate] else [])
    + (if q.endDate != "" && ParseIsoDate(q.endDate).None? then [BadEndDate] else [])
  }

  /** `list_surat_keluar` over the table `table`, before pagination. */
  function ListSuratKeluar(p: Principal, table: seq<SuratKeluar>, args: QueryArgs): (r: ListOutcome)
    ensures p.Anonymous? <==> r == ListRedirectToLogin
    ensures r.Listed? ==>
      && r.listing.params == NormalizeParams(ReadParams(args))
      && (forall x :: multiset(r.listing.rows)[x] ==
            if Shown(p, r.listing.params, x) then multiset(table)[x] else 0)
      && Sorted(r.listing.rows, r.listing.params.sortBy, r.listing.params.sortOrder == "asc")
      && r.listing.warnings == DateWarnings(r.listing.params)
  {
    if LoginRequired(p) != Allow then ListRedirectToLogin
    else
      var q := NormalizeParams(ReadParams(args));
      var owned := Filter(table, OwnerFilter(p));
      var searched := Filter(owned, SearchFilter(q.search, q.searchBy));
      var dated := Filter(searched, DateFilter(q.startDate, q.endDate));
      Listed(Listing(q, Sort(dated, q.sortBy, q.sortOrder == "asc"), DateWarnings(q)))
  }

  /** A member sees only its own rows; an admin, or any role other than
      `'anggota'`, is not filtered by owner. */
  lemma MemberSeesOnlyOwnRows(p: Principal, table: seq<SuratKeluar>, args: QueryArgs)
    requires p.Authenticated?
    ensures var r := ListSuratKeluar(p, table, args);
      && (p.role == ANGGOTA ==> forall x :: x in r.listing.rows ==> x.uploadedByUserId == p.id && x in table)
      && (p.role != ANGGOTA ==> forall x :: OwnerFilter(p)(x))
  {
    var r := ListSuratKeluar(p, table, args);
    forall x | x in r.listing.rows
      ensures x in table && OwnerFilter(p)(x)
    {
      assert multiset(r.listing.rows)[x] > 0;
    }
  }

  /** With no search text and no date bounds, an admin sees the whole table. */
  lemma AdminUnfilteredListing(id: nat, table: seq<SuratKeluar>, args: QueryArgs)
    requires Arg(args, "search", "") == "" && Arg(args, "start_date", "") == "" && Arg(args, "end_date", "") == ""
    ensures multiset(ListSuratKeluar(Authenticated(id, ADMIN), table, args).listing.rows) == multiset(table)
  {
    var r := ListSuratKeluar(Authenticated(id, ADMIN), table, args);
    assert forall x :: Shown(Authenticated(id, ADMIN), r.listing.params, x);
  }

  /** A non-empty search without wildcards or escapes keeps exactly the rows
      whose selected column contains the query, ignoring ASCII case. */
  lemma SearchIsCaseInsensitiveSubstring(p: Principal, q: ListParams, x: SuratKeluar)
    requires q.search != "" && Plain(q.search)
    ensures SearchFilter(q.search, q.searchBy)(x) <==>
      Contains(LowerAll(SearchColumn(x, q.searchBy)), LowerAll(q.search))
  {
    ILikeIsCaseInsensitiveSearch(SearchColumn(x, q.searchBy), q.search);
  }

  /** Both date bounds are inclusive, and a bound that does not parse filters
      nothing. */
  lemma DateBoundsInclusive(x: SuratKeluar, startDate: string, endDate: string)
    ensures ParseIsoDate(startDate) == Some(x.tanggalSurat) && ParseIsoDate(endDate) == Some(x.tanggalSurat) ==>
      DateFilter(startDate, endDate)(x)
    ensures ParseIsoDate(startDate).None? && ParseIsoDate(endDate).None? ==> DateFilter(startDate, endDate)(x)
  {
  }

  /** A bound written in the `YYYY-MM-DD` form is applied as that date. */
  lemma FormattedBoundApplies(x: SuratKeluar, start: Date, end: Date)
    requires ValidDate(start) && ValidDate(end)
    ensures DateFilter(FormatIsoDate(start), FormatIsoDate(end))(x) <==>
      DateLe(start, x.tanggalSurat) && DateLe(x.tanggalSurat, end)
  {
    ParseFormatRoundTrip(start);
    ParseFormatRoundTrip(end);
  }

  /** In a sorted sequence, an earlier row has the smaller key in ascending
      order and the larger one in descending order; on `tanggal_surat` that is
      chronological order. */
  lemma SortedOrder(rows: seq<SuratKeluar>, sortBy: string, asc: bool, i: nat, j: nat)
    requires Sorted(rows, sortBy, asc) && i < j < |rows|
    ensures asc ==> LexLe(SortKey(rows[i], sortBy), SortKey(rows[j], sortBy))
    ensures !asc ==> LexLe(SortKey(rows[j], sortBy), SortKey(rows[i], sortBy))
    ensures sortBy == "tanggal_surat" && asc ==> DateLe(rows[i].tanggalSurat, rows[j].tanggalSurat)
    ensures sortBy == "tanggal_surat" && !asc ==> DateLe(rows[j].tanggalSurat, rows[i].tanggalSurat)
  {
    SortedPairwise(rows, sortBy, asc, i, j);
    DateKeyIsChronological(rows[i].tanggalSurat, rows[j].tanggalSurat);
    DateKeyIsChronological(rows[j].tanggalSurat, rows[i].tanggalSurat);
  }

  /** The listing is ascending iff the `sort_order` argument is `asc`, and
      descending otherwise, including for a value outside the whitelist. */
  lemma ListingOrder(p: Principal, table: seq<SuratKeluar>, args: QueryArgs)
    requires p.Authenticated?
    ensures var r := ListSuratKeluar(p, table, args);
      Sorted(r.listing.rows, r.listing.params.sortBy, Arg(args, "sort_order", "desc") == "asc")
  {
    var r := ListSuratKeluar(p, table, args);
    assert r.listing.params.sortOrder == "asc" <==> Arg(args, "sort_order", "desc") == "asc";
  }

  // --------------------------------------------------------------- guards

  /** `SuratKeluar.query.get(id)`: the row with that id. */
  function FindSurat(table: seq<SuratKeluar>): int -> Option<SuratKeluar> {
    (id: int) => FindRow(table, id)
  }

  function FindRow(table: seq<SuratKeluar>, id: int): (r: Option<SuratKeluar>)
    ensures r.Some? ==> r.value in table && r.value.id == id
    ensures r.None? ==> forall x :: x in table ==> x.id != id
    decreases |table|
  {
    if |table| == 0 then None
    else if table[0].id == id then Some(table[0])
    else FindRow(table[1..], id)
  }

  /** The `owner_attr` default `uploaded_by_user_id`, which every row has. */
  function UploadedBy(x: SuratKeluar): Option<int> {
    Some(x.uploadedByUserId)
  }

  /** `@login_required`, `@requires_role('admin')`, `@owns_resource(SuratKeluar,
      'surat_id')` as stacked on the edit, delete and download routes, for the
      URL's `surat_id`. */
  function ModifyGuard(p: Principal, table: seq<SuratKeluar>, suratId: nat): (d: Decision)
    ensures p.Anonymous? ==> d == RedirectToLogin
  {
    Stack(LoginRequired(p),
      Stack(RequiresRole(p, ADMIN),
        OwnsResource(p, Some(suratId), FindSurat(table), UploadedBy)))
  }

  /** Only admins get through: an authenticated non-admin always gets 403, even
      for its own row, and an admin is allowed exactly when the id is non-zero
      and names a row; an admin is never refused for ownership. */
  lemma ModifyGuardOnlyAdmins(p: Principal, table: seq<SuratKeluar>, suratId: nat)
    ensures var d := ModifyGuard(p, table, suratId);
      && (d == RedirectToLogin <==> p.Anonymous?)
      && (d == Forbidden <==> p.Authenticated? && p.role != ADMIN)
      && (d == Allow <==> p.Authenticated? && p.role == ADMIN && suratId != 0 && FindRow(table, suratId).Some?)
      && (p.Authenticated? && p.role == ADMIN && suratId == 0 ==> d == BadRequest)
      && (p.Authenticated? && p.role == ADMIN && suratId != 0 && FindRow(table, suratId).None? ==> d == NotFound)
  {
  }

  /** Who uploaded a row never changes the decision of the stacked guard: the
      ownership check is reached only by admins, who bypass it. */
  lemma OwnershipNeverDecides(p: Principal, rawId: Option<int>, find: int -> Option<SuratKeluar>,
                              owner1: SuratKeluar -> Option<int>, owner2: SuratKeluar -> Option<int>)
    ensures Stack(LoginRequired(p), Stack(RequiresRole(p, ADMIN), OwnsResource(p, rawId, find, owner1)))
         == Stack(LoginRequired(p), Stack(RequiresRole(p, ADMIN), OwnsResource(p, rawId, find, owner2)))
  {
  }
}
