/** The Redis key under which a list of active auctions is cached, and the database query it stands for. */
module CacheKey {
  import opened Wrappers
  import opened Text
  import opened Numbers

  datatype Category =
    Electronics | Fashion | HomeGarden | Collectibles | Vehicles | Sports | Art | Books | Toys | Other

  datatype SortBy = CreatedAt | EndTime | CurrentPrice

  datatype SortOrder = Asc | Desc

  /** A price filter: any finite number that is not negative. */
  datatype Price = Zero | Positive(amount: Num)

  datatype Query = Query(
    page: nat,
    limit: nat,
    search: Option<string>,
    category: Option<Category>,
    minPrice: Option<Price>,
    maxPrice: Option<Price>,
    sortBy: Option<SortBy>,
    sortOrder: Option<SortOrder>)

  // --- Names of the enumerated values, and back ---

  function CategoryName(c: Category): string {
    match c
    case Electronics => "electronics"
    case Fashion => "fashion"
    case HomeGarden => "home_garden"
    case Collectibles => "collectibles"
    case Vehicles => "vehicles"
    case Sports => "sports"
    case Art => "art"
    case Books => "books"
    case Toys => "toys"
    case Other => "other"
  }

  function SortByName(s: SortBy): string {
    match s
    case CreatedAt => "createdAt"
    case EndTime => "endTime"
    case CurrentPrice => "currentPrice"
  }

  function SortOrderName(o: SortOrder): string {
    if o == Asc then "ASC" else "DESC"
  }

  function CategoryOf(name: string): Option<Category> {
    if name == "electronics" then Some(Electronics)
    else if name == "fashion" then Some(Fashion)
    else if name == "home_garden" then Some(HomeGarden)
    else if name == "collectibles" then Some(Collectibles)
    else if name == "vehicles" then Some(Vehicles)
    else if name == "sports" then Some(Sports)
    else if name == "art" then Some(Art)
    else if name == "books" then Some(Books)
    else if name == "toys" then Some(Toys)
    else if name == "other" then Some(Other)
    else None
  }

  function SortByOf(name: string): Option<SortBy> {
    if name == "createdAt" then Some(CreatedAt)
    else if name == "endTime" then Some(EndTime)
    else if name == "currentPrice" then Some(CurrentPrice)
    else None
  }

  function SortOrderOf(name: string): Option<SortOrder> {
    if name == "ASC" then Some(Asc) else if name == "DESC" then Some(Desc) else None
  }

  lemma NamesRoundTrip(c: Category, s: SortBy, o: SortOrder)
    ensures CategoryOf(CategoryName(c)) == Some(c) && Free(CategoryName(c), ':')
    ensures SortByOf(SortByName(s)) == Some(s) && Free(SortByName(s), ':')
    ensures SortOrderOf(SortOrderName(o)) == Some(o) && Free(SortOrderName(o), ':')
  {
    assert "electronics"[0] == 'e' && "home_garden"[0] == 'h';
    assert "books"[0] == 'b' && "other"[0] == 'o';
  }

  // --- Trimming ---

  /** The characters `String.prototype.trim` removes. */
  predicate Blank(c: char) {
    var n := c as int;
    || 0x09 <= n <= 0x0D || n == 0x20 || n == 0xA0 || n == 0x1680 || 0x2000 <= n <= 0x200A
    || n == 0x2028 || n == 0x2029 || n == 0x202F || n == 0x205F || n == 0x3000 || n == 0xFEFF
  }

  function TrimStart(s: string): string {
    if s != [] && Blank(s[0]) then TrimStart(s[1..]) else s
  }

  function TrimEnd(s: string): string {
    if s != [] && Blank(s[|s| - 1]) then TrimEnd(s[..|s| - 1]) else s
  }

  function Trim(s: string): string {
    TrimEnd(TrimStart(s))
  }

  lemma {:induction false} TrimmedAway(s: string)
    ensures Trim(s) == "" <==> forall i :: 0 <= i < |s| ==> Blank(s[i])
  {
    TrimStartKeeps(s);
    TrimEndKeeps(TrimStart(s));
  }

  lemma {:induction false} TrimStartKeeps(s: string)
    ensures (forall i :: 0 <= i < |s| ==> Blank(s[i])) <==> TrimStart(s) == ""
    ensures TrimStart(s) != "" ==> !Blank(TrimStart(s)[0])
  {
    if s == [] || !Blank(s[0]) {
    } else {
      TrimStartKeeps(s[1..]);
      assert forall i :: 0 < i < |s| ==> s[i] == s[1..][i - 1];
      assert forall i :: 0 <= i < |s| - 1 ==> s[1..][i] == s[i + 1];
    }
  }

  lemma {:induction false} TrimEndKeeps(s: string)
    requires s != "" ==> !Blank(s[0])
    ensures TrimEnd(s) == "" <==> s == ""
  {
    if s == [] || !Blank(s[|s| - 1]) {
    } else {
      TrimEndKeeps(s[..|s| - 1]);
    }
  }

  // --- What the key records ---

  /** The parts of a query that reach the key: falsy and default values are dropped. */
  datatype Canonical = Canonical(
    page: nat,
    limit: nat,
    search: Option<string>,
    category: Option<Category>,
    minPrice: Option<Num>,
    maxPrice: Option<Num>,
    sortBy: Option<SortBy>,
    sortOrder: Option<SortOrder>)

  function Truthy(price: Option<Price>): Option<Num> {
    if price.Some? && price.value.Positive? then Some(price.value.amount) else None
  }

  function CanonicalOf(q: Query): Canonical {
    Canonical(
      q.page,
      q.limit,
      if q.search.GetOr("") == "" then None else Some(Trim(q.search.value)),
      q.category,
      Truthy(q.minPrice),
      Truthy(q.maxPrice),
      if q.sortBy == Some(CreatedAt) then None else q.sortBy,
      if q.sortOrder == Some(Desc) then None else q.sortOrder)
  }

  const TAGS := ["s", "cat", "min", "max", "by", "ord"]

  function Values(c: Canonical): (values: seq<Option<string>>)
    ensures |values| == |TAGS|
  {
    [
      if c.search.Some? then Some(Encode(c.search.value)) else None,
      if c.category.Some? then Some(CategoryName(c.category.value)) else None,
      if c.minPrice.Some? then Some(Print(c.minPrice.value)) else None,
      if c.maxPrice.Some? then Some(Print(c.maxPrice.value)) else None,
      if c.sortBy.Some? then Some(SortByName(c.sortBy.value)) else None,
      if c.sortOrder.Some? then Some(SortOrderName(c.sortOrder.value)) else None
    ]
  }

  function Parts(c: Canonical): seq<string> {
    ["auctions", "active", ToDecimal(c.page), ToDecimal(c.limit)] + Tagged(TAGS, Values(c))
  }

  function KeyOf(q: Query): string {
    Join(Parts(CanonicalOf(q)))
  }

  // --- Reading a key back ---

  /** A field that is absent, or present and readable; `None` when it is present but unreadable. */
  function ReadField<T>(field: Option<string>, read: string -> Option<T>): Option<Option<T>> {
    if field.None? then Some(None)
    else
      var value := read(field.value);
      if value.None? then None else Some(value)
  }

  function ReadFields(page: Option<nat>, limit: Option<nat>, v: seq<Option<string>>): Option<Canonical>
    requires |v| == |TAGS|
  {
    var search, category := ReadField(v[0], Decode), ReadField(v[1], CategoryOf);
    var minPrice, maxPrice := ReadField(v[2], Parse), ReadField(v[3], Parse);
    var sortBy, sortOrder := ReadField(v[4], SortByOf), ReadField(v[5], SortOrderOf);
    if page.None? || limit.None? || search.None? || category.None? || minPrice.None? || maxPrice.None?
       || sortBy.None? || sortOrder.None? then None
    else
      Some(Canonical(page.value, limit.value, search.value, category.value, minPrice.value, maxPrice.value,
                     sortBy.value, sortOrder.value))
  }

  lemma {:induction false} UntagLength(tags: seq<string>, fields: seq<string>)
    ensures |Untag(tags, fields)| == |tags|
  {
    if tags == [] {
    } else {
      UntagLength(tags[1..], fields);
      if fields != [] { UntagLength(tags[1..], fields[1..]); }
    }
  }

  function ParseKey(key: string): Option<Canonical> {
    var parts := Split(key);
    if |parts| < 4 then None
    else
      UntagLength(TAGS, parts[4..]);
      ReadFields(FromDecimal(parts[2]), FromDecimal(parts[3]), Untag(TAGS, parts[4..]))
  }

  lemma DecimalWithoutColon(n: nat)
    ensures Free(ToDecimal(n), ':')
  {
  }

  lemma ValuesWithoutColon(c: Canonical, i: nat)
    requires i < |TAGS| && Values(c)[i].Some?
    ensures Free(Values(c)[i].value, ':')
  {
    EncodedWithoutColon(c.search.GetOr(""));
    NamesRoundTrip(c.category.GetOr(Other), c.sortBy.GetOr(CreatedAt), c.sortOrder.GetOr(Desc));
    PrintWithoutColon(c.minPrice.GetOr(Num(1, 1)));
    PrintWithoutColon(c.maxPrice.GetOr(Num(1, 1)));
  }

  lemma {:induction false} TaggedWithoutColon(tags: seq<string>, values: seq<Option<string>>)
    requires |tags| == |values|
    requires forall i :: 0 <= i < |tags| ==> Free(tags[i], ':') && (values[i].Some? ==> Free(values[i].value, ':'))
    ensures ColonFree(Tagged(tags, values))
  {
    if tags == [] {
    } else {
      TaggedWithoutColon(tags[1..], values[1..]);
    }
  }

  lemma PartsWithoutColon(c: Canonical)
    ensures ColonFree(Parts(c))
  {
    forall i | 0 <= i < |TAGS|
      ensures Free(TAGS[i], ':') && (Values(c)[i].Some? ==> Free(Values(c)[i].value, ':'))
    {
      if Values(c)[i].Some? { ValuesWithoutColon(c, i); }
    }
    TaggedWithoutColon(TAGS, Values(c));
    DecimalWithoutColon(c.page);
    DecimalWithoutColon(c.limit);
    var head := ["auctions", "active", ToDecimal(c.page), ToDecimal(c.limit)];
    assert ColonFree(head);
  }

  lemma ReadSearch(search: Option<string>)
    ensures ReadField(if search.Some? then Some(Encode(search.value)) else None, Decode) == Some(search)
  {
    EncodeRoundTrip(search.GetOr(""));
  }

  lemma ReadPrice(price: Option<Num>)
    ensures ReadField(if price.Some? then Some(Print(price.value)) else None, Parse) == Some(price)
  {
    PrintRoundTrip(price.GetOr(Num(1, 1)));
  }

  lemma ReadValues(c: Canonical)
    ensures ReadFields(Some(c.page), Some(c.limit), Values(c)) == Some(c)
  {
    ReadSearch(c.search);
    ReadPrice(c.minPrice);
    ReadPrice(c.maxPrice);
    NamesRoundTrip(c.category.GetOr(Other), c.sortBy.GetOr(CreatedAt), c.sortOrder.GetOr(Desc));
  }

  lemma TagsAreGood()
    ensures GoodTags(TAGS)
  {
    assert "cat"[0] == 'c' && "min"[0] == 'm' && "max"[0] == 'm' && "ord"[0] == 'o';
    assert "min"[1] == 'i' && "max"[1] == 'a';
  }

  /** A parser recovers page, limit and every filter that matters from the key. */
  lemma ParseKeyOf(q: Query)
    ensures ParseKey(KeyOf(q)) == Some(CanonicalOf(q))
  {
    var c := CanonicalOf(q);
    var parts := Parts(c);
    PartsWithoutColon(c);
    SplitJoin(parts);
    assert parts[4..] == Tagged(TAGS, Values(c));
    TagsAreGood();
    UntagTagged(TAGS, Values(c));
    DecimalRoundTrip(c.page);
    DecimalRoundTrip(c.limit);
    ReadValues(c);
  }

  // --- The database query ---

  datatype DbQuery = DbQuery(
    skip: int,
    take: nat,
    match_: Option<string>,
    category: Option<Category>,
    minPrice: Option<Num>,
    maxPrice: Option<Num>,
    sortBy: SortBy,
    sortOrder: SortOrder)

  /** What the repository asks the database for. */
  function DbQueryOf(q: Query): DbQuery {
    DbQuery(
      (q.page - 1) * q.limit,
      q.limit,
      if q.search.None? || Trim(q.search.value) == "" then None else Some(Trim(q.search.value) + "*"),
      q.category,
      if q.minPrice.GetOr(Zero) == Zero then None else Some(q.minPrice.value.amount),
      if q.maxPrice.GetOr(Zero) == Zero then None else Some(q.maxPrice.value.amount),
      q.sortBy.GetOr(CreatedAt),
      q.sortOrder.GetOr(Desc))
  }

  /** What trimming leaves begins and ends with no white space, and only white space stood around it. */
  lemma TrimExactly(s: string) returns (front: string, back: string)
    ensures s == front + Trim(s) + back
    ensures forall i :: 0 <= i < |front| ==> Blank(front[i])
    ensures forall i :: 0 <= i < |back| ==> Blank(back[i])
    ensures Trim(s) != "" ==> !Blank(Trim(s)[0]) && !Blank(Trim(s)[|Trim(s)| - 1])
  {
    front := TrimmedFront(s);
    TrimStartKeeps(s);
    back := TrimmedBack(TrimStart(s));
    assert s == front + (Trim(s) + back);
  }

  lemma {:induction false} TrimmedFront(s: string) returns (front: string)
    ensures s == front + TrimStart(s) && forall i :: 0 <= i < |front| ==> Blank(front[i])
  {
    if s == [] || !Blank(s[0]) {
      front := [];
    } else {
      var rest := TrimmedFront(s[1..]);
      front := [s[0]] + rest;
    }
  }

  lemma {:induction false} TrimmedBack(s: string) returns (back: string)
    ensures s == TrimEnd(s) + back && forall i :: 0 <= i < |back| ==> Blank(back[i])
    ensures TrimEnd(s) != "" ==> TrimEnd(s)[0] == s[0] && !Blank(TrimEnd(s)[|TrimEnd(s)| - 1])
  {
    if s == [] || !Blank(s[|s| - 1]) {
      back := [];
    } else {
      var rest := TrimmedBack(s[..|s| - 1]);
      back := rest + [s[|s| - 1]];
    }
  }

  /** A price filter counts unless it is absent or zero. */
  predicate AsksPrice(asked: Option<Num>, given: Option<Price>) {
    match given
    case Some(Positive(amount)) => asked == Some(amount)
    case _ => asked == None
  }

  /**
   The database is asked for the page of that size, the words searched for as prefixes, the category and
   each price bound as given, in the order given or else by creation, latest first.
   */
  lemma AskedExactly(q: Query)
    ensures var asked := DbQueryOf(q);
            && asked.take == q.limit && asked.skip + q.limit == q.page * q.limit
            && asked.category == q.category
            && AsksPrice(asked.minPrice, q.minPrice) && AsksPrice(asked.maxPrice, q.maxPrice)
            && asked.sortBy == (if q.sortBy.Some? then q.sortBy.value else CreatedAt)
            && asked.sortOrder == (if q.sortOrder.Some? then q.sortOrder.value else Desc)
            && (asked.match_.None? <==> q.search.None? || forall i :: 0 <= i < |q.search.value| ==> Blank(q.search.value[i]))
            && (asked.match_.Some? ==> q.search.Some? && asked.match_.value == Trim(q.search.value) + "*")
  {
    if q.search.Some? { TrimmedAway(q.search.value); }
  }

  /** A search text of nothing but white space reaches the key, though not the database. */
  predicate BlankSearch(q: Query) {
    q.search.GetOr("") != "" && forall i :: 0 <= i < |q.search.value| ==> Blank(q.search.value[i])
  }

  /** Two queries share a key exactly when they ask the database for the same page and agree on a blank search. */
  lemma SameKeyExactly(p: Query, q: Query)
    ensures KeyOf(p) == KeyOf(q) <==>
              && p.page == q.page && p.limit == q.limit
              && DbQueryOf(p) == DbQueryOf(q)
              && (BlankSearch(p) <==> BlankSearch(q))
  {
    KeysAgree(p, q);
    SearchesAgree(p, q);
    if p.page == q.page && p.limit == q.limit {
      OtherFiltersAgree(p, q);
      assert CanonicalOf(p) == CanonicalOf(q) <==>
        CanonicalOf(p).search == CanonicalOf(q).search && CanonicalOf(p).(search := None) == CanonicalOf(q).(search := None);
      assert DbQueryOf(p) == DbQueryOf(q) <==>
        DbQueryOf(p).match_ == DbQueryOf(q).match_ && DbQueryOf(p).(match_ := None) == DbQueryOf(q).(match_ := None);
    }
  }

  lemma KeysAgree(p: Query, q: Query)
    ensures KeyOf(p) == KeyOf(q) <==> CanonicalOf(p) == CanonicalOf(q)
  {
    ParseKeyOf(p);
    ParseKeyOf(q);
  }

  lemma OtherFiltersAgree(p: Query, q: Query)
    requires p.page == q.page && p.limit == q.limit
    ensures CanonicalOf(p).(search := None) == CanonicalOf(q).(search := None) <==>
              DbQueryOf(p).(match_ := None) == DbQueryOf(q).(match_ := None)
  {
  }

  lemma SearchesAgree(p: Query, q: Query)
    ensures CanonicalOf(p).search == CanonicalOf(q).search <==>
              DbQueryOf(p).match_ == DbQueryOf(q).match_ && (BlankSearch(p) <==> BlankSearch(q))
  {
    var s, t := p.search.GetOr(""), q.search.GetOr("");
    TrimmedAway(s);
    TrimmedAway(t);
    SameStarred(Trim(s), Trim(t));
  }

  lemma SameStarred(s: string, t: string)
    ensures s + "*" == t + "*" <==> s == t
  {
    assert (s + "*")[..|s + "*"| - 1] == s;
    assert (t + "*")[..|t + "*"| - 1] == t;
  }

  /** A search for white space is cached apart from no search, though both ask for the same rows. */
  lemma BlankSearchIsCachedApart(q: Query)
    requires q.search.None?
    ensures var blank := q.(search := Some(" "));
            DbQueryOf(blank) == DbQueryOf(q) && KeyOf(blank) != KeyOf(q)
  {
    SameKeyExactly(q.(search := Some(" ")), q);
    TrimmedAway(" ");
  }

  // --- The keys the invalidation pattern covers ---

  const LIST_PREFIX := "auctions:active:"

  lemma ListKeysMatch(q: Query)
    ensures LIST_PREFIX <= KeyOf(q)
  {
    var c := CanonicalOf(q);
    var rest := Tagged(TAGS, Values(c));
    JoinPrefix(ToDecimal(c.page), ToDecimal(c.limit), rest);
    JoinStarts(LIST_PREFIX + ToDecimal(c.page) + ":" + ToDecimal(c.limit), rest);
  }

  lemma JoinStarts(first: string, rest: seq<string>)
    ensures first <= Join([first] + rest)
  {
    assert ([first] + rest)[1..] == rest;
  }

  /** `auction:<id>:<field>`, the form of every key of a live auction. */
  function AuctionKey(id: nat, field: string): string {
    "auction:" + ToDecimal(id) + ":" + field
  }

  lemma AuctionKeysDoNotMatch(id: nat, field: string)
    ensures !(LIST_PREFIX <= AuctionKey(id, field))
  {
    assert LIST_PREFIX[7] == 's' && AuctionKey(id, field)[7] == ':';
  }

  // --- Building the key ---

  function Field(tag: string, value: Option<string>): seq<string> {
    if value.Some? then [tag + "=" + value.value] else []
  }

  lemma {:induction false} TaggedSnoc(tags: seq<string>, values: seq<Option<string>>, tag: string, value: Option<string>)
    requires |tags| == |values|
    ensures Tagged(tags + [tag], values + [value]) == Tagged(tags, values) + Field(tag, value)
  {
    if tags == [] {
      assert Tagged([tag], [value]) == Field(tag, value) + Tagged([], []);
    } else {
      TaggedSnoc(tags[1..], values[1..], tag, value);
      assert (tags + [tag])[1..] == tags[1..] + [tag] && (values + [value])[1..] == values[1..] + [value];
    }
  }

  /** The parts after the first `k` fields have been considered. */
  ghost function Built(q: Query, k: nat): seq<string>
    requires k <= |TAGS|
  {
    ["auctions:active:" + ToDecimal(q.page) + ":" + ToDecimal(q.limit)]
    + Tagged(TAGS[..k], Values(CanonicalOf(q))[..k])
  }

  lemma PushField(q: Query, k: nat)
    requires k < |TAGS|
    ensures Built(q, k + 1) == Built(q, k) + Field(TAGS[k], Values(CanonicalOf(q))[k])
  {
    var v := Values(CanonicalOf(q));
    TaggedSnoc(TAGS[..k], v[..k], TAGS[k], v[k]);
    assert TAGS[..k] + [TAGS[k]] == TAGS[..k + 1] && v[..k] + [v[k]] == v[..k + 1];
  }

  /** Which fields are pushed, one by one. */
  lemma PushedTexts(q: Query)
    ensures Built(q, 1) == if q.search.GetOr("") == "" then Built(q, 0)
                           else Built(q, 0) + ["s" + "=" + Encode(Trim(q.search.value))]
    ensures Built(q, 2) == if q.category.None? then Built(q, 1)
                           else Built(q, 1) + ["cat" + "=" + CategoryName(q.category.value)]
  {
    PushField(q, 0);
    PushField(q, 1);
  }

  lemma PushedPrices(q: Query)
    ensures Built(q, 3) == if q.minPrice.GetOr(Zero) == Zero then Built(q, 2)
                           else Built(q, 2) + ["min" + "=" + Print(q.minPrice.value.amount)]
    ensures Built(q, 4) == if q.maxPrice.GetOr(Zero) == Zero then Built(q, 3)
                           else Built(q, 3) + ["max" + "=" + Print(q.maxPrice.value.amount)]
  {
    PushField(q, 2);
    PushField(q, 3);
  }

  lemma PushedOrder(q: Query)
    ensures Built(q, 5) == if q.sortBy.GetOr(CreatedAt) == CreatedAt then Built(q, 4)
                           else Built(q, 4) + ["by" + "=" + SortByName(q.sortBy.value)]
    ensures Built(q, 6) == if q.sortOrder.GetOr(Desc) == Desc then Built(q, 5)
                           else Built(q, 5) + ["ord" + "=" + SortOrderName(q.sortOrder.value)]
  {
    PushField(q, 4);
    PushField(q, 5);
  }

  lemma AllPushed(q: Query)
    ensures Join(Built(q, |TAGS|)) == KeyOf(q)
  {
    var v := Values(CanonicalOf(q));
    assert TAGS[..|TAGS|] == TAGS && v[..|TAGS|] == v;
    JoinPrefix(ToDecimal(q.page), ToDecimal(q.limit), Tagged(TAGS, v));
  }

  /** A field made of two, second in line. */
  lemma JoinSecond(first: string, second: string, third: string, rest: seq<string>)
    ensures Join([first, second + ":" + third] + rest) == Join([first, second, third] + rest)
  {
    JoinRest(first, [second + ":" + third] + rest);
    JoinRest(first, [second, third] + rest);
    JoinHead(second, third, rest);
    assert [first] + ([second + ":" + third] + rest) == [first, second + ":" + third] + rest;
    assert [first] + ([second, third] + rest) == [first, second, third] + rest;
  }

  /** A field made of two, third in line. */
  lemma JoinThird(first: string, second: string, third: string, fourth: string, rest: seq<string>)
    ensures Join([first, second, third + ":" + fourth] + rest) == Join([first, second, third, fourth] + rest)
  {
    JoinRest(first, [second, third + ":" + fourth] + rest);
    JoinRest(first, [second, third, fourth] + rest);
    JoinSecond(second, third, fourth, rest);
    assert [first] + ([second, third + ":" + fourth] + rest) == [first, second, third + ":" + fourth] + rest;
    assert [first] + ([second, third, fourth] + rest) == [first, second, third, fourth] + rest;
  }

  lemma JoinPrefix(page: string, limit: string, rest: seq<string>)
    ensures Join(["auctions:active:" + page + ":" + limit] + rest) == Join(["auctions", "active", page, limit] + rest)
  {
    PrefixParts(page, limit);
    JoinHead("auctions", "active" + ":" + (page + ":" + limit), rest);
    JoinSecond("auctions", "active", page + ":" + limit, rest);
    JoinThird("auctions", "active", page, limit, rest);
  }

  lemma PrefixParts(page: string, limit: string)
    ensures "auctions:active:" + page + ":" + limit == "auctions" + ":" + ("active" + ":" + (page + ":" + limit))
  {
  }

  lemma JoinRest(first: string, rest: seq<string>)
    requires rest != []
    ensures Join([first] + rest) == first + ":" + Join(rest)
  {
    assert ([first] + rest)[1..] == rest;
  }

  function WithField(key: string, tag: string, value: Option<string>): string {
    if value.Some? then key + ":" + tag + "=" + value.value else key
  }

  lemma FieldPushed(parts: seq<string>, tag: string, value: Option<string>)
    requires parts != []
    ensures Join(parts + Field(tag, value)) == WithField(Join(parts), tag, value)
  {
    if value.Some? {
      JoinSnoc(parts, tag + "=" + value.value);
      assert ":" + (tag + "=" + value.value) == ":" + tag + "=" + value.value;
    } else {
      assert parts + Field(tag, value) == parts;
    }
  }

  /** The fields of a key: filters that are absent, empty or zero and orders that are the default leave none. */
  function SearchField(q: Query): Option<string> {
    if q.search.Some? && q.search.value != "" then Some(Encode(Trim(q.search.value))) else None
  }

  function CategoryField(q: Query): Option<string> {
    if q.category.Some? then Some(CategoryName(q.category.value)) else None
  }

  function PriceField(price: Option<Price>): Option<string> {
    match price
    case Some(Positive(amount)) => Some(Print(amount))
    case _ => None
  }

  function SortByField(q: Query): Option<string> {
    match q.sortBy
    case Some(EndTime) => Some("endTime")
    case Some(CurrentPrice) => Some("currentPrice")
    case _ => None
  }

  function SortOrderField(q: Query): Option<string> {
    if q.sortOrder == Some(Asc) then Some("ASC") else None
  }

  lemma NextField(q: Query, k: nat)
    requires k < |TAGS|
    ensures Join(Built(q, k + 1)) == WithField(Join(Built(q, k)), TAGS[k], Values(CanonicalOf(q))[k])
  {
    PushField(q, k);
    FieldPushed(Built(q, k), TAGS[k], Values(CanonicalOf(q))[k]);
  }

  lemma FieldsAre(q: Query)
    ensures Values(CanonicalOf(q)) ==
            [SearchField(q), CategoryField(q), PriceField(q.minPrice), PriceField(q.maxPrice),
             SortByField(q), SortOrderField(q)]
  {
  }

  lemma TextFields(q: Query)
    ensures Join(Built(q, 2)) == WithField(WithField(Join(Built(q, 0)), "s", SearchField(q)), "cat", CategoryField(q))
  {
    NextField(q, 0);
    NextField(q, 1);
    FieldsAre(q);
  }

  lemma PriceFields(q: Query)
    ensures Join(Built(q, 4)) ==
            WithField(WithField(Join(Built(q, 2)), "min", PriceField(q.minPrice)), "max", PriceField(q.maxPrice))
  {
    NextField(q, 2);
    NextField(q, 3);
    FieldsAre(q);
  }

  lemma OrderFields(q: Query)
    ensures Join(Built(q, 6)) ==
            WithField(WithField(Join(Built(q, 4)), "by", SortByField(q)), "ord", SortOrderField(q))
  {
    NextField(q, 4);
    NextField(q, 5);
    FieldsAre(q);
  }

  lemma BareKey(q: Query)
    ensures Join(Built(q, 0)) == "auctions:active:" + ToDecimal(q.page) + ":" + ToDecimal(q.limit)
  {
    assert Built(q, 0) == ["auctions:active:" + ToDecimal(q.page) + ":" + ToDecimal(q.limit)];
  }

  /** The key, spelled out. */
  lemma KeySpelledOut(q: Query)
    ensures var plain := "auctions:active:" + ToDecimal(q.page) + ":" + ToDecimal(q.limit);
            var filed := WithField(WithField(plain, "s", SearchField(q)), "cat", CategoryField(q));
            var priced := WithField(WithField(filed, "min", PriceField(q.minPrice)), "max", PriceField(q.maxPrice));
            KeyOf(q) == WithField(WithField(priced, "by", SortByField(q)), "ord", SortOrderField(q))
  {
    BareKey(q);
    TextFields(q);
    PriceFields(q);
    OrderFields(q);
    AllPushed(q);
  }

  method BuildAuctionsCacheKey(q: Query) returns (key: string)
    ensures key == KeyOf(q)
  {
    var parts := ["auctions:active:" + ToDecimal(q.page) + ":" + ToDecimal(q.limit)];
    assert parts == Built(q, 0);
    PushedTexts(q);
    PushedPrices(q);
    PushedOrder(q);
    if q.search.Some? && q.search.value != "" { parts := parts + ["s" + "=" + Encode(Trim(q.search.value))]; }
    if q.category.Some? { parts := parts + ["cat" + "=" + CategoryName(q.category.value)]; }
    if q.minPrice.Some? && q.minPrice.value != Zero { parts := parts + ["min" + "=" + Print(q.minPrice.value.amount)]; }
    if q.maxPrice.Some? && q.maxPrice.value != Zero { parts := parts + ["max" + "=" + Print(q.maxPrice.value.amount)]; }
    if q.sortBy.Some? && q.sortBy.value != CreatedAt { parts := parts + ["by" + "=" + SortByName(q.sortBy.value)]; }
    if q.sortOrder.Some? && q.sortOrder.value != Desc { parts := parts + ["ord" + "=" + SortOrderName(q.sortOrder.value)]; }
    AllPushed(q);
    key := Join(parts);
  }
}
