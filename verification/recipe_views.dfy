/**
 * The query and ownership rules of the recipe API views
 * (`app/recipe/views.py`), with the ORM replaced by sequences of rows.
 *
 * - `BaseRecipeAttr` (the Tag and Ingredient view sets) lists the acting
 *   user's rows by name, descending, and stamps the acting user as the
 *   owner of every row it creates.
 * - `RecipeViewSet` parses the optional `tags` and `ingredients` query
 *   parameters with `params_to_ids`, keeps the recipes linked to any of the
 *   listed ids in each given dimension, keeps the acting user's recipes and
 *   orders them by id, descending. Its detail actions look a recipe up by
 *   id within that listing. It too stamps the owner on create.
 */
module RecipeViews {
  import opened Wrappers
  import opened Text
  import opened PyInt
  import opened Entities
  import opened Query

  /** A table after a save, and the row that was saved. */
  datatype Saved<T> = Saved(rows: seq<T>, row: T)

  // ---------------------------------------------------------------------
  // BaseRecipeAttr: TagViewSet and IngredientViewSet

  /** `filter(user=self.request.user)` on Tag or Ingredient rows. */
  function OwnedBy(user: UserId): Attr -> bool {
    (a: Attr) => a.owner == user
  }

  /**
   * `BaseRecipeAttr.get_queryset`: every row the acting user owns, each as
   * often as it is stored, no row of another user, in descending name order.
   */
  function ListAttrs(rows: seq<Attr>, user: UserId): (r: seq<Attr>)
    ensures forall a :: a in r <==> a in rows && a.owner == user
    ensures forall a: Attr :: a.owner == user ==> multiset(r)[a] == multiset(rows)[a]
    ensures |r| <= |rows|
    ensures NameDescending(r)
  {
    var own := Filter(rows, OwnedBy(user));
    var sorted := SortByNameDesc(own);
    forall a: Attr
      ensures a in sorted <==> a in rows && a.owner == user
      ensures a.owner == user ==> multiset(sorted)[a] == multiset(rows)[a]
    {
      assert a in sorted <==> a in multiset(sorted);
      assert OwnedBy(user)(a) == (a.owner == user);
      if a.owner == user {
        FilterKeepsCount(rows, OwnedBy(user), a);
      }
    }
    assert |multiset(sorted)| == |sorted| && |multiset(own)| == |own|;
    sorted
  }

  /** A Tag or Ingredient as a client posts it: a name and perhaps an owner. */
  datatype AttrPayload = AttrPayload(name: string, claimedOwner: Option<UserId>)

  /**
   * `BaseRecipeAttr.perform_create`: saves the posted row with the acting
   * user as owner, whatever owner the payload names; `id` is the primary
   * key the database assigns.
   */
  function CreateAttr(rows: seq<Attr>, user: UserId, payload: AttrPayload, id: int): (r: Saved<Attr>)
    ensures r.row.owner == user
    ensures r.row.name == payload.name && r.row.id == id
    ensures r.rows == rows + [r.row]
  {
    var a := Attr(id, user, payload.name);
    Saved(rows + [a], a)
  }

  /**
   * A created row shows up in its creator's listing and leaves every other
   * user's listing exactly as it was.
   */
  lemma CreateAttrScoped(rows: seq<Attr>, user: UserId, payload: AttrPayload, id: int, other: UserId)
    ensures CreateAttr(rows, user, payload, id).row in ListAttrs(CreateAttr(rows, user, payload, id).rows, user)
    ensures other != user ==>
      ListAttrs(CreateAttr(rows, user, payload, id).rows, other) == ListAttrs(rows, other)
  {
    var saved := CreateAttr(rows, user, payload, id);
    assert saved.row in saved.rows;
    if other != user {
      FilterAppendRejected(rows, saved.row, OwnedBy(other));
    }
  }

  /**
   * Two rows of one user with different names are listed with the
   * lexicographically greater name first, in whichever order they were stored.
   */
  lemma ListAttrsTwoNames(a: Attr, b: Attr, user: UserId)
    requires a.owner == user && b.owner == user
    requires StrLe(a.name, b.name) && a.name != b.name
    ensures ListAttrs([a, b], user) == [b, a]
    ensures ListAttrs([b, a], user) == [b, a]
  {
    TwoNamesOrdered([a, b], a, b, user);
    TwoNamesOrdered([b, a], a, b, user);
  }

  lemma TwoNamesOrdered(rows: seq<Attr>, a: Attr, b: Attr, user: UserId)
    requires |rows| <= 2 && a in rows && b in rows
    requires forall x :: x in rows ==> x == a || x == b
    requires a.owner == user && b.owner == user
    requires StrLe(a.name, b.name) && a.name != b.name
    ensures ListAttrs(rows, user) == [b, a]
  {
    var r := ListAttrs(rows, user);
    OnlyOrderOfTwo(r, a, b);
  }

  /** A name-descending sequence of exactly two rows puts the greater name first. */
  lemma OnlyOrderOfTwo(r: seq<Attr>, a: Attr, b: Attr)
    requires a in r && b in r && |r| <= 2
    requires forall x :: x in r ==> x == a || x == b
    requires NameDescending(r)
    requires StrLe(a.name, b.name) && a.name != b.name
    ensures r == [b, a]
  {
    assert a != b;
    assert |r| == 2;
    assert StrLe(r[1].name, r[0].name);
    if r[0] == a {
      assert r[1] == b;
      StrLeAntisymmetric(a.name, b.name);
    }
  }

  /**
   * The listing from the tag tests: "Pie" comes before "Drinks".
   * The two rows are parameters pinned by `requires`: written inline they would be unfolded at every use, which makes the proof far more expensive.
   */
  lemma ListAttrsPieBeforeDrinks(user: UserId, drinks: Attr, pie: Attr)
    requires drinks == Attr(1, user, "Drinks") && pie == Attr(2, user, "Pie")
    ensures ListAttrs([drinks, pie], user) == [pie, drinks]
  {
    assert drinks.name[0] == 'D' && pie.name[0] == 'P';
    ListAttrsTwoNames(drinks, pie, user);
  }

  // ---------------------------------------------------------------------
  // RecipeViewSet.params_to_ids

  /**
   * `[parse(id) for id in pieces]`: every piece parsed in order; the first
   * piece that does not parse raises its error.
   */
  function ParseEach<E(==)>(pieces: seq<string>, parse: string -> Result<int, E>): (r: Result<seq<int>, E>)
    ensures r.Success? <==> forall k :: 0 <= k < |pieces| ==> parse(pieces[k]).Success?
    ensures r.Success? ==> |r.value| == |pieces|
    ensures r.Success? ==> forall k :: 0 <= k < |pieces| ==> parse(pieces[k]) == Success(r.value[k])
    ensures r.Failure? ==> exists k ::
      && 0 <= k < |pieces|
      && parse(pieces[k]) == Failure(r.error)
      && forall j :: 0 <= j < k ==> parse(pieces[j]).Success?
  {
    if |pieces| == 0 then Success([])
    else
      match parse(pieces[0])
      case Failure(e) => Failure(e)
      case Success(first) =>
        match ParseEach(pieces[1..], parse)
        case Failure(e) =>
          var k :| && 0 <= k < |pieces| - 1
                   && parse(pieces[1..][k]) == Failure(e)
                   && forall j :: 0 <= j < k ==> parse(pieces[1..][j]).Success?;
          assert pieces[1..][k] == pieces[k + 1];
          assert forall j :: 1 <= j < k + 1 ==> pieces[j] == pieces[1..][j - 1];
          Failure(e)
        case Success(rest) =>
          assert forall k :: 1 <= k < |pieces| ==> pieces[k] == pieces[1..][k - 1];
          Success([first] + rest)
  }

  /** `param.split(',')`: the comma-separated pieces of a query parameter. */
  function Pieces(param: string): seq<string> {
    Split(param, ',')
  }

  /**
   * `params_to_ids`: one integer per comma-separated piece, in order, each
   * the value `int()` gives that piece; the first piece that is not an
   * integer, the empty piece included, raises that piece's error.
   */
  function ParamsToIds(param: string): (r: Result<seq<int>, ParseError>)
    ensures r.Success? <==> forall k :: 0 <= k < |Pieces(param)| ==> ParseInt(Pieces(param)[k]).Success?
    ensures r.Success? ==> |r.value| == |Pieces(param)|
    ensures r.Success? ==> forall k :: 0 <= k < |r.value| ==> ParseInt(Pieces(param)[k]) == Success(r.value[k])
    ensures r.Failure? ==> r.error.text in Pieces(param) && ParseInt(r.error.text).Failure?
    ensures r.Failure? ==> exists k ::
      && 0 <= k < |Pieces(param)|
      && ParseInt(Pieces(param)[k]) == Failure(r.error)
      && forall j :: 0 <= j < k ==> ParseInt(Pieces(param)[j]).Success?
  {
    ParseEach(Pieces(param), ParseInt)
  }

  /** `str(n)` of every id. */
  function ShowEach(ids: seq<int>): (r: seq<string>)
    ensures |r| == |ids|
    ensures forall k :: 0 <= k < |ids| ==> r[k] == ShowInt(ids[k])
  {
    if |ids| == 0 then [] else [ShowInt(ids[0])] + ShowEach(ids[1..])
  }

  /** How a client writes a list of ids into a query parameter: `1,2,3`. */
  function ShowIds(ids: seq<int>): string {
    Join(ShowEach(ids), ',')
  }

  /** Every id is written within the digit limit. */
  predicate AllShowWithinLimit(ids: seq<int>) {
    forall k :: 0 <= k < |ids| ==> ShowsWithinLimit(ids[k])
  }

  /**
   * Reading back a comma-separated list of ids gives the ids, in order,
   * exactly when each is within the digit limit; otherwise the error names
   * an id that is not.
   */
  lemma ParamsToIdsShowIds(ids: seq<int>)
    requires |ids| >= 1
    ensures ParamsToIds(ShowIds(ids)).Success? <==> AllShowWithinLimit(ids)
    ensures AllShowWithinLimit(ids) ==> ParamsToIds(ShowIds(ids)) == Success(ids)
    ensures !AllShowWithinLimit(ids) ==> exists k ::
      && 0 <= k < |ids|
      && !ShowsWithinLimit(ids[k])
      && ParamsToIds(ShowIds(ids)) == Failure(TooManyDigits(ShowInt(ids[k])))
  {
    ShowIdsPieces(ids);
    var param := ShowIds(ids);
    if AllShowWithinLimit(ids) {
      ParamsToIdsAllParse(param, ids);
    } else {
      var i :| 0 <= i < |ids| && !ShowsWithinLimit(ids[i]);
      assert ParseInt(Pieces(param)[i]).Failure?;
      var r := ParamsToIds(param);
      var k :| 0 <= k < |ids| && ParseInt(Pieces(param)[k]) == Failure(r.error);
      assert !ShowsWithinLimit(ids[k]);
    }
  }

  /** The pieces of written-out ids are the ids' own `str()`, each read back by `int()`. */
  lemma ShowIdsPieces(ids: seq<int>)
    requires |ids| >= 1
    ensures |Pieces(ShowIds(ids))| == |ids|
    ensures forall k :: 0 <= k < |ids| ==> Pieces(ShowIds(ids))[k] == ShowInt(ids[k])
    ensures forall k :: 0 <= k < |ids| ==>
      ParseInt(ShowInt(ids[k])) ==
        if ShowsWithinLimit(ids[k]) then Success(ids[k]) else Failure(TooManyDigits(ShowInt(ids[k])))
  {
    var pieces := ShowEach(ids);
    forall k | 0 <= k < |pieces|
      ensures ',' !in pieces[k]
      ensures ParseInt(ShowInt(ids[k])) ==
        if ShowsWithinLimit(ids[k]) then Success(ids[k]) else Failure(TooManyDigits(ShowInt(ids[k])))
    {
      ShowIntHasNoComma(ids[k]);
      ParseShowInt(ids[k]);
    }
    SplitJoin(pieces, ',');
  }

  /** When every piece reads as the id at its position, the ids are the result. */
  lemma ParamsToIdsAllParse(param: string, ids: seq<int>)
    requires |Pieces(param)| == |ids|
    requires forall k :: 0 <= k < |ids| ==> ParseInt(Pieces(param)[k]) == Success(ids[k])
    ensures ParamsToIds(param) == Success(ids)
  {
    var r := ParamsToIds(param);
    assert r.Success?;
    assert r.value == ids;
  }

  lemma ShowIntHasNoComma(n: int)
    ensures ',' !in ShowInt(n)
  {
  }

  /**
   * The error `params_to_ids` raises is that of the first piece that does not
   * parse: the pieces before it all parse, and it alone decides the error.
   */
  lemma ParamsToIdsFirstFailure(param: string, k: nat)
    requires k < |Pieces(param)| && ParseInt(Pieces(param)[k]).Failure?
    requires forall j :: 0 <= j < k ==> ParseInt(Pieces(param)[j]).Success?
    ensures ParamsToIds(param) == Failure(ParseInt(Pieces(param)[k]).error)
  {
    var pieces := Pieces(param);
    var r := ParamsToIds(param);
    var i :| && 0 <= i < |pieces|
             && ParseInt(pieces[i]) == Failure(r.error)
             && forall j :: 0 <= j < i ==> ParseInt(pieces[j]).Success?;
    assert i == k;
  }

  /** An empty piece anywhere makes `params_to_ids` fail. */
  lemma EmptyPieceFails(param: string, k: nat)
    requires k < |Pieces(param)| && Pieces(param)[k] == ""
    ensures ParamsToIds(param).Failure?
  {
    ParseIntEmpty();
  }

  /** Two commas in a row, as in `1,,2`, leave an empty piece between them. */
  lemma ParamsToIdsRejectsDoubleComma(a: string, b: string)
    ensures ParamsToIds(a + ",," + b).Failure?
  {
    var rest := "" + [','] + b;
    assert a + ",," + b == a + [','] + rest;
    SplitAround(a, rest, ',');
    SplitAround("", b, ',');
    assert Split("", ',') == [""];
    EmptyPieceFails(a + ",," + b, |Split(a, ',')|);
  }

  /** A leading comma leaves an empty first piece. */
  lemma ParamsToIdsRejectsLeadingComma(b: string)
    ensures ParamsToIds("," + b).Failure?
  {
    assert "," + b == "" + [','] + b;
    SplitAround("", b, ',');
    assert Split("", ',') == [""];
    EmptyPieceFails("," + b, 0);
  }

  /** A trailing comma leaves an empty last piece. */
  lemma ParamsToIdsRejectsTrailingComma(a: string)
    ensures ParamsToIds(a + ",").Failure?
  {
    assert a + "," == a + [','] + "";
    SplitAround(a, "", ',');
    assert Split("", ',') == [""];
    EmptyPieceFails(a + ",", |Split(a, ',')|);
  }

  // ---------------------------------------------------------------------
  // RecipeViewSet.get_queryset

  /**
   * The filter one query parameter asks for: `if tags:` skips an absent or
   * empty parameter; otherwise its ids, or the error `params_to_ids` raised.
   */
  function IdsFilter(param: Option<string>): (r: Result<Option<seq<int>>, ParseError>)
    ensures param.None? || param == Some("") ==> r == Success(None)
    ensures param.Some? && param.value != "" ==>
      (r.Success? <==> ParamsToIds(param.value).Success?)
    ensures param.Some? && param.value != "" && r.Success? ==>
      r.value == Some(ParamsToIds(param.value).value)
    ensures param.Some? && param.value != "" && r.Failure? ==>
      r.error == ParamsToIds(param.value).error
  {
    match param
    case None => Success(None)
    case Some(text) =>
      if text == "" then Success(None)
      else
        var ids :- ParamsToIds(text);
        Success(Some(ids))
  }

  /** `filter(tags__id__in=ids)`: at least one linked id is among `ids`. */
  predicate LinksAny(linked: set<int>, ids: seq<int>) {
    exists k :: 0 <= k < |ids| && ids[k] in linked
  }

  /** A missing filter lets every recipe through. */
  predicate Passes(linked: set<int>, filter: Option<seq<int>>) {
    filter.None? || LinksAny(linked, filter.value)
  }

  /**
   * The recipes `get_queryset` keeps: the tag filter, the ingredient filter
   * and the owner filter together.
   */
  predicate Listed(x: Recipe, user: UserId, tagFilter: Option<seq<int>>, ingredientFilter: Option<seq<int>>) {
    && Passes(x.tagIds, tagFilter)
    && Passes(x.ingredientIds, ingredientFilter)
    && x.owner == user
  }

  /**
   * How many rows the join behind `filter(tags__id__in=ids)` yields for a
   * recipe linked to `linked`: one per linked id among `ids`, since the
   * query asks for no `distinct()`; one row when there is no filter.
   */
  function JoinCount(linked: set<int>, filter: Option<seq<int>>): nat {
    match filter
    case None => 1
    case Some(ids) => |set t | t in linked && t in ids|
  }

  /**
   * How many rows `get_queryset` yields for one stored recipe: none for
   * another user's recipe; otherwise the product of the two joins' counts.
   */
  function Copies(x: Recipe, user: UserId, tagFilter: Option<seq<int>>, ingredientFilter: Option<seq<int>>): nat {
    if x.owner == user then JoinCount(x.tagIds, tagFilter) * JoinCount(x.ingredientIds, ingredientFilter) else 0
  }

  function CopiesOf(user: UserId, tagFilter: Option<seq<int>>, ingredientFilter: Option<seq<int>>): Recipe -> nat {
    (x: Recipe) => Copies(x, user, tagFilter, ingredientFilter)
  }

  /** A join yields a row for a recipe exactly when the recipe passes that filter. */
  lemma JoinCountPasses(linked: set<int>, filter: Option<seq<int>>)
    ensures JoinCount(linked, filter) > 0 <==> Passes(linked, filter)
  {
    if filter.Some? {
      var ids := filter.value;
      var matching := set t | t in linked && t in ids;
      if LinksAny(linked, ids) {
        var k :| 0 <= k < |ids| && ids[k] in linked;
        assert ids[k] in matching;
      } else {
        assert forall t :: t in linked ==> t !in ids;
        assert matching == {};
      }
    }
  }

  /** When every linked id is among the filter's ids, the join yields one row per link. */
  lemma JoinCountAllIn(linked: set<int>, ids: seq<int>)
    requires forall t :: t in linked ==> t in ids
    ensures JoinCount(linked, Some(ids)) == |linked|
  {
    var matching := set t | t in linked && t in ids;
    assert forall t :: t in matching <==> t in linked;
    assert matching == linked;
  }

  /** A recipe is listed exactly when `get_queryset` yields at least one row for it. */
  lemma ListedIffCopies(x: Recipe, user: UserId, tagFilter: Option<seq<int>>, ingredientFilter: Option<seq<int>>)
    ensures Listed(x, user, tagFilter, ingredientFilter) <==> Copies(x, user, tagFilter, ingredientFilter) > 0
  {
    JoinCountPasses(x.tagIds, tagFilter);
    JoinCountPasses(x.ingredientIds, ingredientFilter);
    ProductPositive(JoinCount(x.tagIds, tagFilter), JoinCount(x.ingredientIds, ingredientFilter));
  }

  /**
   * The rows the filters yield, ordered by id, descending: each stored
   * recipe as many times as the joins repeat it, so a listed row is stored
   * and passes every filter, and each stored row that passes them is
   * listed. Over a table with unique ids the listing is strictly
   * descending exactly when no listed recipe is repeated by a join.
   */
  function Listing(rows: seq<Recipe>, user: UserId, tagFilter: Option<seq<int>>, ingredientFilter: Option<seq<int>>): (r: seq<Recipe>)
    ensures forall x :: x in r <==> x in rows && Listed(x, user, tagFilter, ingredientFilter)
    ensures IdDescending(r)
    ensures UniqueIds(rows) ==>
      (IdStrictlyDescending(r) <==> forall x :: x in r ==> Copies(x, user, tagFilter, ingredientFilter) == 1)
  {
    var joined := Expand(rows, CopiesOf(user, tagFilter, ingredientFilter));
    var sorted := SortByIdDesc(joined);
    forall x
      ensures x in sorted <==> x in rows && Listed(x, user, tagFilter, ingredientFilter)
    {
      assert x in sorted <==> x in multiset(joined);
      ListedIffCopies(x, user, tagFilter, ingredientFilter);
    }
    if UniqueIds(rows) then
      ListingStrict(rows, user, tagFilter, ingredientFilter, joined, sorted);
      sorted
    else
      sorted
  }

  /** Each stored recipe occurs in the listing as often as the joins yield it. */
  lemma ListingCounts(rows: seq<Recipe>, user: UserId, tagFilter: Option<seq<int>>, ingredientFilter: Option<seq<int>>)
    ensures forall x ::
      multiset(Listing(rows, user, tagFilter, ingredientFilter))[x] == multiset(rows)[x] * Copies(x, user, tagFilter, ingredientFilter)
  {
    var joined := Expand(rows, CopiesOf(user, tagFilter, ingredientFilter));
    assert Listing(rows, user, tagFilter, ingredientFilter) == SortByIdDesc(joined);
  }

  lemma ListingStrict(rows: seq<Recipe>, user: UserId, tagFilter: Option<seq<int>>, ingredientFilter: Option<seq<int>>,
                      joined: seq<Recipe>, sorted: seq<Recipe>)
    requires UniqueIds(rows)
    requires forall x :: multiset(joined)[x] == multiset(rows)[x] * Copies(x, user, tagFilter, ingredientFilter)
    requires multiset(sorted) == multiset(joined)
    requires UniqueIds(joined) ==> IdStrictlyDescending(sorted)
    ensures IdStrictlyDescending(sorted) <==> forall x :: x in sorted ==> Copies(x, user, tagFilter, ingredientFilter) == 1
  {
    forall x | x in sorted
      ensures x in joined && x in rows && multiset(sorted)[x] == Copies(x, user, tagFilter, ingredientFilter)
    {
      assert x in multiset(joined);
      UniqueIdsOnce(rows, x);
    }
    if IdStrictlyDescending(sorted) {
      StrictOnce(sorted);
    }
    if forall x :: x in sorted ==> Copies(x, user, tagFilter, ingredientFilter) == 1 {
      forall x, y | x in joined && y in joined && x.id == y.id
        ensures x == y
      {
        assert x in multiset(sorted) && y in multiset(sorted);
        UniqueIdsSame(rows, x, y);
      }
      forall x | x in joined
        ensures multiset(joined)[x] == 1
      {
        assert x in multiset(sorted);
      }
      OnceUnique(joined);
    }
  }

  /**
   * `RecipeViewSet.get_queryset`: the acting user's recipes that, for each
   * given parameter, link to at least one of its ids, each repeated once
   * per matching link, ordered by id, descending. A bad `tags` parameter
   * is reported before `ingredients` is looked at.
   */
  function ListRecipes(rows: seq<Recipe>, user: UserId, tags: Option<string>, ingredients: Option<string>): (r: Result<seq<Recipe>, ParseError>)
    ensures r.Success? <==> IdsFilter(tags).Success? && IdsFilter(ingredients).Success?
    ensures IdsFilter(tags).Failure? ==> r == Failure(IdsFilter(tags).error)
    ensures IdsFilter(tags).Success? && IdsFilter(ingredients).Failure? ==>
      r == Failure(IdsFilter(ingredients).error)
    ensures r.Success? ==> forall x :: x in r.value <==>
      x in rows && Listed(x, user, IdsFilter(tags).value, IdsFilter(ingredients).value)
    ensures r.Success? ==> IdDescending(r.value)
    ensures r.Success? && UniqueIds(rows) ==>
      (IdStrictlyDescending(r.value) <==>
        forall x :: x in r.value ==> Copies(x, user, IdsFilter(tags).value, IdsFilter(ingredients).value) == 1)
  {
    var tagFilter :- IdsFilter(tags);
    var ingredientFilter :- IdsFilter(ingredients);
    Success(Listing(rows, user, tagFilter, ingredientFilter))
  }

  /** Each stored recipe occurs in a successful listing as often as the joins yield it. */
  lemma ListRecipesCounts(rows: seq<Recipe>, user: UserId, tags: Option<string>, ingredients: Option<string>)
    requires ListRecipes(rows, user, tags, ingredients).Success?
    ensures forall x ::
      multiset(ListRecipes(rows, user, tags, ingredients).value)[x] ==
        multiset(rows)[x] * Copies(x, user, IdsFilter(tags).value, IdsFilter(ingredients).value)
  {
    ListingCounts(rows, user, IdsFilter(tags).value, IdsFilter(ingredients).value);
  }

  /**
   * With no `tags` and no `ingredients` parameter the listing holds exactly
   * the acting user's recipes.
   */
  lemma ListRecipesUnfiltered(rows: seq<Recipe>, user: UserId)
    ensures ListRecipes(rows, user, None, None).Success?
    ensures forall x :: x in ListRecipes(rows, user, None, None).value <==> x in rows && x.owner == user
  {
  }

  /**
   * Over a table with unique ids, a successful listing is THE id-descending
   * sequence that holds each stored recipe as often as the joins yield it:
   * any such sequence equals it.
   */
  lemma ListRecipesDetermined(rows: seq<Recipe>, user: UserId, tags: Option<string>, ingredients: Option<string>, expected: seq<Recipe>)
    requires UniqueIds(rows)
    requires ListRecipes(rows, user, tags, ingredients).Success?
    requires IdDescending(expected)
    requires forall x ::
      multiset(expected)[x] == multiset(rows)[x] * Copies(x, user, IdsFilter(tags).value, IdsFilter(ingredients).value)
    ensures ListRecipes(rows, user, tags, ingredients) == Success(expected)
  {
    ListingDeterminedByCounts(rows, user, IdsFilter(tags).value, IdsFilter(ingredients).value, expected);
  }

  /** An empty parameter filters nothing, exactly as if it were absent. */
  lemma EmptyParamIsNoFilter(rows: seq<Recipe>, user: UserId, tags: Option<string>, ingredients: Option<string>)
    ensures ListRecipes(rows, user, Some(""), ingredients) == ListRecipes(rows, user, None, ingredients)
    ensures ListRecipes(rows, user, tags, Some("")) == ListRecipes(rows, user, tags, None)
  {
  }

  /**
   * Filtering by both parameters lists only recipes that each parameter
   * alone lists, and every filtered listing lies within the unfiltered one.
   */
  lemma BothFiltersWithinEach(rows: seq<Recipe>, user: UserId, tags: Option<string>, ingredients: Option<string>)
    requires ListRecipes(rows, user, tags, ingredients).Success?
    ensures ListRecipes(rows, user, tags, None).Success?
    ensures ListRecipes(rows, user, None, ingredients).Success?
    ensures forall x :: x in ListRecipes(rows, user, tags, ingredients).value ==>
      && x in ListRecipes(rows, user, tags, None).value
      && x in ListRecipes(rows, user, None, ingredients).value
      && x in ListRecipes(rows, user, None, None).value
  {
  }

  /**
   * A client's non-empty list of ids, written out, is a filter on exactly
   * those ids when each is within the digit limit, and an error otherwise.
   */
  lemma IdsFilterShowIds(ids: seq<int>)
    requires |ids| >= 1
    ensures IdsFilter(Some(ShowIds(ids))).Success? <==> AllShowWithinLimit(ids)
    ensures AllShowWithinLimit(ids) ==> IdsFilter(Some(ShowIds(ids))) == Success(Some(ids))
  {
    var param := ShowIds(ids);
    JoinKeepsFirst(ShowEach(ids), ',');
    assert param != "";
    ParamsToIdsShowIds(ids);
    IdsFilterOfText(param, IdsFilter(Some(param)));
  }

  lemma IdsFilterOfText(param: string, r: Result<Option<seq<int>>, ParseError>)
    requires param != "" && r == IdsFilter(Some(param))
    ensures r.Success? <==> ParamsToIds(param).Success?
    ensures r.Success? ==> r.value == Some(ParamsToIds(param).value)
  {
  }

  lemma JoinKeepsFirst(parts: seq<string>, sep: char)
    requires |parts| >= 1
    ensures |Join(parts, sep)| >= |parts[0]|
  {
  }

  /**
   * Over rows with unique ids, the listing is the one id-descending
   * sequence holding each stored recipe as often as the joins yield it.
   */
  lemma ListingDeterminedByCounts(rows: seq<Recipe>, user: UserId, tagFilter: Option<seq<int>>, ingredientFilter: Option<seq<int>>, expected: seq<Recipe>)
    requires UniqueIds(rows)
    requires IdDescending(expected)
    requires forall x :: multiset(expected)[x] == multiset(rows)[x] * Copies(x, user, tagFilter, ingredientFilter)
    ensures Listing(rows, user, tagFilter, ingredientFilter) == expected
  {
    var listing := Listing(rows, user, tagFilter, ingredientFilter);
    ListingCounts(rows, user, tagFilter, ingredientFilter);
    assert multiset(expected) == multiset(listing);
    forall x, y | x in expected && y in expected && x.id == y.id
      ensures x == y
    {
      assert x in multiset(expected) && y in multiset(expected);
      UniqueIdsSame(rows, x, y);
    }
    DescendingUnique(expected, listing);
  }

  /**
   * Over rows with unique ids, when no listed recipe is repeated by a join,
   * the listing is the one strictly descending arrangement of its members.
   */
  lemma ListingDetermined(rows: seq<Recipe>, user: UserId, tagFilter: Option<seq<int>>, ingredientFilter: Option<seq<int>>, expected: seq<Recipe>)
    requires UniqueIds(rows)
    requires forall x :: x in rows && Listed(x, user, tagFilter, ingredientFilter) ==> Copies(x, user, tagFilter, ingredientFilter) == 1
    requires IdStrictlyDescending(expected)
    requires forall x :: x in expected <==> x in rows && Listed(x, user, tagFilter, ingredientFilter)
    ensures Listing(rows, user, tagFilter, ingredientFilter) == expected
  {
    StrictlyDescendingUnique(expected, Listing(rows, user, tagFilter, ingredientFilter));
  }

  /** Two recipes with different ids, the older one first, have unique ids. */
  lemma TwoRecipesUnique(r1: Recipe, r2: Recipe)
    requires r1.id < r2.id
    ensures UniqueIds([r1, r2])
    ensures IdStrictlyDescending([r2, r1])
  {
  }

  /** Once both parameters are known to parse, the listing is the filtered one. */
  lemma ListRecipesThrough(rows: seq<Recipe>, user: UserId, tags: Option<string>, ingredients: Option<string>,
                           tagFilter: Option<seq<int>>, ingredientFilter: Option<seq<int>>)
    requires IdsFilter(tags) == Success(tagFilter) && IdsFilter(ingredients) == Success(ingredientFilter)
    ensures ListRecipes(rows, user, tags, ingredients) == Success(Listing(rows, user, tagFilter, ingredientFilter))
  {
  }

  /**
   * Two recipes of one user, one tagged `t1` and a newer one tagged `t2`:
   * filtering on `t1` keeps the first only; filtering on `t1,t2` keeps
   * both, newest first.
   */
  lemma TwoTaggedListings(r1: Recipe, r2: Recipe, user: UserId, t1: int, t2: int)
    requires r1.owner == user && r2.owner == user
    requires r1.tagIds == {t1} && r2.tagIds == {t2} && t1 != t2
    requires r1.id < r2.id
    ensures Listing([r1, r2], user, Some([t1]), None) == [r1]
    ensures Listing([r1, r2], user, Some([t1, t2]), None) == [r2, r1]
  {
    TwoRecipesUnique(r1, r2);
    JoinCountAllIn(r1.tagIds, [t1]);
    assert !LinksAny(r2.tagIds, [t1]);
    ListingDetermined([r1, r2], user, Some([t1]), None, [r1]);
    JoinCountAllIn(r1.tagIds, [t1, t2]);
    JoinCountAllIn(r2.tagIds, [t1, t2]);
    ListingDetermined([r1, r2], user, Some([t1, t2]), None, [r2, r1]);
  }

  /**
   * The same two recipes, tagged `t1` and `t2`, filtered through the query
   * parameter: `tags=t1` lists the first recipe only, and `tags=t1,t2`
   * lists both, newest first.
   */
  lemma TagFilterThroughQuery(r1: Recipe, r2: Recipe, user: UserId, t1: int, t2: int, one: string, both: string)
    requires r1.owner == user && r2.owner == user
    requires r1.tagIds == {t1} && r2.tagIds == {t2} && t1 != t2
    requires r1.id < r2.id
    requires one == ShowIds([t1]) && both == ShowIds([t1, t2])
    requires ShowsWithinLimit(t1) && ShowsWithinLimit(t2)
    ensures ListRecipes([r1, r2], user, Some(one), None) == Success([r1])
    ensures ListRecipes([r1, r2], user, Some(both), None) == Success([r2, r1])
  {
    WithinLimitPair(t1, t2);
    IdsFilterShowIds([t1]);
    IdsFilterShowIds([t1, t2]);
    ListRecipesThrough([r1, r2], user, Some(one), None, Some([t1]), None);
    ListRecipesThrough([r1, r2], user, Some(both), None, Some([t1, t2]), None);
    TwoTaggedListings(r1, r2, user, t1, t2);
  }

  lemma PairFilter(t1: int, t2: int, param: string)
    requires ShowsWithinLimit(t1) && ShowsWithinLimit(t2)
    requires param == ShowIds([t1, t2])
    ensures IdsFilter(Some(param)) == Success(Some([t1, t2]))
  {
    WithinLimitPair(t1, t2);
    IdsFilterShowIds([t1, t2]);
  }

  lemma WithinLimitPair(t1: int, t2: int)
    requires ShowsWithinLimit(t1) && ShowsWithinLimit(t2)
    ensures AllShowWithinLimit([t1]) && AllShowWithinLimit([t1, t2])
  {
  }

  // ---------------------------------------------------------------------
  // RecipeViewSet.perform_create

  /** A recipe as a client posts it, with whatever owner it claims. */
  datatype RecipePayload = RecipePayload(
    title: string,
    timeMinutes: int,
    priceCents: int,
    link: string,
    tagIds: set<int>,
    ingredientIds: set<int>,
    claimedOwner: Option<UserId>
  )

  /**
   * `RecipeViewSet.perform_create`: saves the posted recipe with the acting
   * user as owner; every other field is the payload's. `id` is the primary
   * key the database assigns.
   */
  function CreateRecipe(rows: seq<Recipe>, user: UserId, payload: RecipePayload, id: int): (r: Saved<Recipe>)
    ensures r.row.owner == user && r.row.id == id
    ensures r.row.title == payload.title && r.row.timeMinutes == payload.timeMinutes
    ensures r.row.priceCents == payload.priceCents && r.row.link == payload.link
    ensures r.row.tagIds == payload.tagIds && r.row.ingredientIds == payload.ingredientIds
    ensures r.rows == rows + [r.row]
  {
    var x := Recipe(id, user, payload.title, payload.timeMinutes, payload.priceCents,
                    payload.link, payload.tagIds, payload.ingredientIds);
    Saved(rows + [x], x)
  }

  /** A recipe of one user never enters another user's listing. */
  lemma ListingIgnoresOthers(rows: seq<Recipe>, x: Recipe, user: UserId, tagFilter: Option<seq<int>>, ingredientFilter: Option<seq<int>>)
    requires x.owner != user
    ensures Listing(rows + [x], user, tagFilter, ingredientFilter) == Listing(rows, user, tagFilter, ingredientFilter)
  {
    ExpandAppend(rows, x, CopiesOf(user, tagFilter, ingredientFilter));
    AppendNothing(Expand(rows, CopiesOf(user, tagFilter, ingredientFilter)));
  }

  /** A recipe one user creates never changes what another user lists. */
  lemma CreateRecipeInvisibleToOthers(rows: seq<Recipe>, user: UserId, payload: RecipePayload, id: int,
                                      other: UserId, tags: Option<string>, ingredients: Option<string>)
    requires other != user
    ensures ListRecipes(CreateRecipe(rows, user, payload, id).rows, other, tags, ingredients)
         == ListRecipes(rows, other, tags, ingredients)
  {
    var saved := CreateRecipe(rows, user, payload, id);
    var tf := IdsFilter(tags);
    var inf := IdsFilter(ingredients);
    if tf.Success? && inf.Success? {
      ListingIgnoresOthers(rows, saved.row, other, tf.value, inf.value);
    }
  }

  /**
   * A created recipe whose id is above every stored id heads its creator's
   * unfiltered listing, and a table with unique ids keeps them unique.
   */
  lemma CreateRecipeListedFirst(rows: seq<Recipe>, user: UserId, payload: RecipePayload, id: int)
    requires forall x :: x in rows ==> x.id < id
    ensures UniqueIds(rows) ==> UniqueIds(CreateRecipe(rows, user, payload, id).rows)
    ensures ListRecipes(CreateRecipe(rows, user, payload, id).rows, user, None, None).Success?
    ensures var listed := ListRecipes(CreateRecipe(rows, user, payload, id).rows, user, None, None).value;
      |listed| > 0 && listed[0] == CreateRecipe(rows, user, payload, id).row
  {
    var saved := CreateRecipe(rows, user, payload, id);
    var all := saved.rows;
    if UniqueIds(rows) {
      UniqueIdsSnoc(rows, saved.row);
    }
    assert forall y :: y in all ==> y == saved.row || y.id < saved.row.id;
    NewestHeadsListing(all, user, saved.row);
  }

  /** A user's recipe whose id tops every stored id heads that user's unfiltered listing. */
  lemma NewestHeadsListing(all: seq<Recipe>, user: UserId, x: Recipe)
    requires x in all && x.owner == user
    requires forall y :: y in all ==> y == x || y.id < x.id
    ensures ListRecipes(all, user, None, None).Success?
    ensures |ListRecipes(all, user, None, None).value| > 0 && ListRecipes(all, user, None, None).value[0] == x
  {
    ListRecipesThrough(all, user, None, None, None, None);
    var listed := Listing(all, user, None, None);
    assert Listed(x, user, None, None);
    TopIdHeads(listed, x);
  }

  /** A row whose id tops every other row's heads an id-descending sequence holding it. */
  lemma TopIdHeads(listed: seq<Recipe>, x: Recipe)
    requires IdDescending(listed) && x in listed
    requires forall y :: y in listed ==> y == x || y.id < x.id
    ensures |listed| > 0 && listed[0] == x
  {
    var k :| 0 <= k < |listed| && listed[k] == x;
    if k > 0 {
      assert IdAtMost(listed[k], listed[0]);
    }
  }

  // ---------------------------------------------------------------------
  // RecipeViewSet.get_object: retrieve, update, destroy and upload_image

  /** Why looking up one recipe fails. */
  datatype LookupError =
    | BadFilter(error: ParseError)  // `get_queryset` raised while reading a parameter
    | NotFound                      // no row of the queryset has the id: a 404
    | MultipleFound                 // the joins yielded the row more than once: `get()` raises

  /** How many rows of `listing` have the id `id`. */
  function CountId(listing: seq<Recipe>, id: int): (n: nat)
    ensures n == 0 <==> forall x :: x in listing ==> x.id != id
    ensures n <= |listing|
  {
    if |listing| == 0 then 0
    else (if listing[0].id == id then 1 else 0) + CountId(listing[1..], id)
  }

  /** When one recipe alone has its id, the rows with that id are its copies. */
  lemma {:induction false} CountIdCopies(listing: seq<Recipe>, x: Recipe)
    requires forall y :: y in listing && y.id == x.id ==> y == x
    ensures CountId(listing, x.id) == multiset(listing)[x]
    decreases |listing|
  {
    if |listing| > 0 {
      assert listing == [listing[0]] + listing[1..];
      CountIdCopies(listing[1..], x);
    }
  }

  /** A row of `listing` whose id is `id`, if any; `GetRecipe` asks only when exactly one row has it. */
  function FindById(listing: seq<Recipe>, id: int): (r: Option<Recipe>)
    ensures r.None? <==> forall x :: x in listing ==> x.id != id
    ensures r.Some? ==> r.value in listing && r.value.id == id
  {
    if |listing| == 0 then None
    else if listing[0].id == id then Some(listing[0])
    else FindById(listing[1..], id)
  }

  /**
   * `get_object()`, which every detail action (retrieve, update, destroy,
   * and `upload_image`) goes through: `get(pk=id)` on `get_queryset`, so
   * the owner filter and the `tags` and `ingredients` filters of the
   * request apply to it too. No row is a 404; more than one row, which the
   * joins produce when a recipe matches several of the ids, makes `get()`
   * raise.
   */
  function GetRecipe(rows: seq<Recipe>, user: UserId, tags: Option<string>, ingredients: Option<string>, id: int): (r: Result<Recipe, LookupError>)
    ensures ListRecipes(rows, user, tags, ingredients).Failure? ==>
      r == Failure(BadFilter(ListRecipes(rows, user, tags, ingredients).error))
    ensures r.Success? ==> r.value in rows && r.value.id == id && r.value.owner == user
    ensures r.Success? ==> Listed(r.value, user, IdsFilter(tags).value, IdsFilter(ingredients).value)
    ensures ListRecipes(rows, user, tags, ingredients).Success? ==>
      (r == Failure(NotFound) <==>
        forall x :: x in rows && Listed(x, user, IdsFilter(tags).value, IdsFilter(ingredients).value) ==> x.id != id)
    ensures r.Failure? && r.error.MultipleFound? ==>
      exists x :: x in rows && x.id == id && Listed(x, user, IdsFilter(tags).value, IdsFilter(ingredients).value)
  {
    match ListRecipes(rows, user, tags, ingredients)
    case Failure(e) => Failure(BadFilter(e))
    case Success(listing) =>
      var n := CountId(listing, id);
      if n == 0 then Failure(NotFound)
      else if n == 1 then Success(FindById(listing, id).value)
      else
        var x := FindById(listing, id).value;
        assert x in rows;
        Failure(MultipleFound)
  }

  /**
   * Over a table with unique ids, looking up a stored recipe gives it when
   * the joins yield it once, a 404 when they yield it not at all, and the
   * `get()` error when they yield it more than once.
   */
  lemma GetRecipeCopies(rows: seq<Recipe>, user: UserId, tags: Option<string>, ingredients: Option<string>,
                        tagFilter: Option<seq<int>>, ingredientFilter: Option<seq<int>>, x: Recipe)
    requires UniqueIds(rows) && x in rows
    requires IdsFilter(tags) == Success(tagFilter) && IdsFilter(ingredients) == Success(ingredientFilter)
    ensures var n := Copies(x, user, tagFilter, ingredientFilter);
      GetRecipe(rows, user, tags, ingredients, x.id) ==
        if n == 0 then Failure(NotFound) else if n == 1 then Success(x) else Failure(MultipleFound)
  {
    ListRecipesThrough(rows, user, tags, ingredients, tagFilter, ingredientFilter);
    CountIdInListing(rows, user, tagFilter, ingredientFilter, x);
  }

  /** In a table with unique ids, the listing's rows with a stored recipe's id are its copies. */
  lemma CountIdInListing(rows: seq<Recipe>, user: UserId, tagFilter: Option<seq<int>>, ingredientFilter: Option<seq<int>>, x: Recipe)
    requires UniqueIds(rows) && x in rows
    ensures forall y :: y in Listing(rows, user, tagFilter, ingredientFilter) && y.id == x.id ==> y == x
    ensures CountId(Listing(rows, user, tagFilter, ingredientFilter), x.id) == Copies(x, user, tagFilter, ingredientFilter)
  {
    var listing := Listing(rows, user, tagFilter, ingredientFilter);
    ListingOneRowPerId(rows, listing, x);
    CountIdCopies(listing, x);
    UniqueIdsOnce(rows, x);
    ListingCountAt(rows, user, tagFilter, ingredientFilter, x);
  }

  lemma ListingCountAt(rows: seq<Recipe>, user: UserId, tagFilter: Option<seq<int>>, ingredientFilter: Option<seq<int>>, x: Recipe)
    requires multiset(rows)[x] == 1
    ensures multiset(Listing(rows, user, tagFilter, ingredientFilter))[x] == Copies(x, user, tagFilter, ingredientFilter)
  {
    ListingCounts(rows, user, tagFilter, ingredientFilter);
  }

  lemma ListingOneRowPerId(rows: seq<Recipe>, listing: seq<Recipe>, x: Recipe)
    requires UniqueIds(rows) && x in rows
    requires forall y :: y in listing ==> y in rows
    ensures forall y :: y in listing && y.id == x.id ==> y == x
  {
    forall y | y in listing && y.id == x.id
      ensures y == x
    {
      UniqueIdsSame(rows, x, y);
    }
  }

  /**
   * A recipe tagged `t1` and `t2`, filtered on `tags=t1,t2`: the join
   * yields it twice, so the listing shows it twice and looking it up makes
   * `get()` raise instead of returning it.
   */
  lemma GetRecipeRepeatedByJoin(x: Recipe, user: UserId, t1: int, t2: int, param: string)
    requires x.owner == user && x.tagIds == {t1, t2} && t1 != t2
    requires ShowsWithinLimit(t1) && ShowsWithinLimit(t2)
    requires param == ShowIds([t1, t2])
    ensures ListRecipes([x], user, Some(param), None) == Success([x, x])
    ensures GetRecipe([x], user, Some(param), None, x.id) == Failure(MultipleFound)
  {
    ListRecipesRepeatedByJoin(x, user, t1, t2, param);
    SingleRowUnique(x);
    GetRecipeCopies([x], user, Some(param), None, Some([t1, t2]), None, x);
  }

  lemma ListRecipesRepeatedByJoin(x: Recipe, user: UserId, t1: int, t2: int, param: string)
    requires x.owner == user && x.tagIds == {t1, t2} && t1 != t2
    requires ShowsWithinLimit(t1) && ShowsWithinLimit(t2)
    requires param == ShowIds([t1, t2])
    ensures IdsFilter(Some(param)) == Success(Some([t1, t2]))
    ensures Copies(x, user, Some([t1, t2]), None) == 2
    ensures ListRecipes([x], user, Some(param), None) == Success([x, x])
  {
    PairFilter(t1, t2, param);
    ListRecipesThrough([x], user, Some(param), None, Some([t1, t2]), None);
    ListingRepeatedByJoin(x, user, t1, t2);
  }

  lemma SingleRowUnique(x: Recipe)
    ensures UniqueIds([x])
  {
  }

  /** The same recipe and filter, given as ids: the joins yield the recipe twice. */
  lemma ListingRepeatedByJoin(x: Recipe, user: UserId, t1: int, t2: int)
    requires x.owner == user && x.tagIds == {t1, t2} && t1 != t2
    ensures Copies(x, user, Some([t1, t2]), None) == 2
    ensures Listing([x], user, Some([t1, t2]), None) == [x, x]
  {
    JoinCountAllIn(x.tagIds, [t1, t2]);
    forall y
      ensures multiset([x, x])[y] == multiset([x])[y] * Copies(y, user, Some([t1, t2]), None)
    {
      if y != x {
        assert y !in [x, x];
      }
    }
    ListingDeterminedByCounts([x], user, Some([t1, t2]), None, [x, x]);
  }

  /** A recipe of another user is never found, whatever the request asks. */
  lemma GetRecipeOthersNotFound(rows: seq<Recipe>, user: UserId, tags: Option<string>, ingredients: Option<string>, id: int)
    requires forall x :: x in rows && x.id == id ==> x.owner != user
    ensures GetRecipe(rows, user, tags, ingredients, id).Failure?
    ensures ListRecipes(rows, user, tags, ingredients).Success? ==>
      GetRecipe(rows, user, tags, ingredients, id) == Failure(NotFound)
  {
  }

  /** Over a table with unique ids, a user's own recipe is found by its id. */
  lemma GetRecipeFindsOwn(rows: seq<Recipe>, user: UserId, x: Recipe)
    requires UniqueIds(rows)
    requires x in rows && x.owner == user
    ensures GetRecipe(rows, user, None, None, x.id) == Success(x)
  {
    NoFilter();
    UnfilteredOnce(x, user);
    GetRecipeOnce(rows, user, None, None, None, None, x);
  }

  lemma NoFilter()
    ensures IdsFilter(None) == Success(None)
  {
  }

  lemma UnfilteredOnce(x: Recipe, user: UserId)
    requires x.owner == user
    ensures Copies(x, user, None, None) == 1
  {
  }

  lemma GetRecipeOnce(rows: seq<Recipe>, user: UserId, tags: Option<string>, ingredients: Option<string>,
                      tagFilter: Option<seq<int>>, ingredientFilter: Option<seq<int>>, x: Recipe)
    requires UniqueIds(rows) && x in rows
    requires IdsFilter(tags) == Success(tagFilter) && IdsFilter(ingredients) == Success(ingredientFilter)
    requires Copies(x, user, tagFilter, ingredientFilter) == 1
    ensures GetRecipe(rows, user, tags, ingredients, x.id) == Success(x)
  {
    GetRecipeCopies(rows, user, tags, ingredients, tagFilter, ingredientFilter, x);
  }
}
