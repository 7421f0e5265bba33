# Recipe API: ownership-scoped views and the user manager, in Dafny

This project models two pieces of a Django REST recipe API.

- **The recipe views** (`app/recipe/views.py`):
  - The Tag and Ingredient view sets list the acting user's rows by name, descending. They stamp the acting user as the owner of every row they create.
  - The Recipe view set reads the optional `tags` and `ingredients` query parameters with `params_to_ids`. That is Python's `int()` on each comma-separated piece.
  - It keeps the recipes linked to at least one listed id in each given dimension, keeps the acting user's recipes, and orders them by id, descending. The filters are joins without `distinct()`, so a recipe is yielded once per matching link, and once per combination when both filters are given.
  - Its detail actions (retrieve, update, delete, `upload_image`) look a recipe up by id within that same queryset. `get()` raises `MultipleObjectsReturned` when the joins yield the recipe more than once.
  - It stamps the owner on create.
- **The user manager** (`app/core/models.py`):
  - `create_user` refuses a missing or empty e-mail and normalises the address the way Django's `normalize_email` does. It passes the extra fields on, stores the password's credential, and fills in the column defaults.
  - The e-mail column is unique.
  - `create_superuser` is `create_user` followed by raising the staff and superuser flags.

Database tables are sequences of rows for the recipe views and a map keyed by e-mail for users. A raised exception is a `Failure` of a `Result`. The password hasher is a function parameter.

Modules, one per file:

| file | module | contents |
|---|---|---|
| `wrappers.dfy` | `Wrappers` | `Option` and `Result` |
| `text.dfy` | `Text` | Python's `strip`, ASCII `lower`, `split` and `join`, the last-occurrence search behind `rsplit`, and lexicographic string order |
| `pyint.dfy` | `PyInt` | `int(s)` in base 10 and `str(n)` |
| `entities.dfy` | `Entities` | Tag/Ingredient and Recipe rows |
| `query.dfy` | `Query` | `filter` and the two `order_by` sorts over sequences |
| `recipe_views.dfy` | `RecipeViews` | the three view sets |
| `users.dfy` | `Users` | `AuthUserManager` and the `AuthUser` table |

Two details of the user manager:
- A missing or empty e-mail raises a plain `ValueError` (`app/core/models.py` line 12), modelled as the `EmailRequired` error.
- Salting and hashing are whatever `set_password` delegates to, so the hasher is an abstract function parameter.

## Model

| member | source | states |
|---|---|---|
| RecipeViews.ListAttrs | app/recipe/views.py:18-20 | exactly the acting user's Tag/Ingredient rows are listed, each as often as stored, none of another user, in descending name order |
| RecipeViews.CreateAttr | app/recipe/views.py:22-24 | the saved row is owned by the acting user whatever owner the payload claims, keeps the posted name and is appended to the table |
| RecipeViews.CreateAttrScoped | app/recipe/views.py:18-24 | a created Tag/Ingredient appears in its creator's listing and leaves every other user's listing unchanged |
| RecipeViews.ListAttrsTwoNames | app/recipe/views.py:20 | two rows with different names are listed greater name first, in whichever order they were stored |
| RecipeViews.ListAttrsPieBeforeDrinks | app/recipe/tests/test_tag_api.py:40-51 | the tag-listing test: "Pie" is listed before "Drinks" |
| RecipeViews.ParseEach | app/recipe/views.py:48 | the list comprehension succeeds iff every piece parses; then it has one value per piece, in order; otherwise it raises the error of the first piece that does not parse |
| RecipeViews.ParamsToIds | app/recipe/views.py:46-48 | `params_to_ids` yields one integer per comma-separated piece, each `int()` of that piece; a failure is the `int()` error raised by the first piece that is not an integer, every earlier piece being one |
| RecipeViews.ParamsToIdsFirstFailure | app/recipe/views.py:48 | when piece `k` is the first that does not parse, `params_to_ids` raises exactly the error of piece `k` |
| RecipeViews.ParamsToIdsAllParse | app/recipe/views.py:48 | when every piece reads as the id at its position, `params_to_ids` returns exactly those ids |
| RecipeViews.ParamsToIdsShowIds | app/recipe/views.py:46-48 | round trip: a non-empty list of ids written as `1,2,3` is read back as the same list exactly when every id is within the 4300-digit limit; otherwise the error is the digit-limit error of an id beyond it |
| RecipeViews.EmptyPieceFails | app/recipe/views.py:48 | an empty piece anywhere makes `params_to_ids` raise |
| RecipeViews.ParamsToIdsRejectsDoubleComma | app/recipe/views.py:48 | `a,,b` raises whatever `a` and `b` are |
| RecipeViews.ParamsToIdsRejectsLeadingComma | app/recipe/views.py:48 | a leading comma raises |
| RecipeViews.ParamsToIdsRejectsTrailingComma | app/recipe/views.py:48 | a trailing comma raises |
| RecipeViews.IdsFilter | app/recipe/views.py:60-68 | an absent or empty parameter adds no filter; a non-empty one filters on its ids or raises the very error `params_to_ids` raised |
| RecipeViews.Listing | app/recipe/views.py:62-71 | a recipe is listed iff it is stored, owned by the acting user and passes each given filter; the listing is id-descending; over unique ids it is strictly descending iff no listed recipe is yielded twice by the joins |
| RecipeViews.JoinCountPasses | app/recipe/views.py:66 | the `tags__id__in` join yields at least one row for a recipe iff the recipe passes the filter; with no filter it yields exactly one |
| RecipeViews.JoinCountAllIn | app/recipe/views.py:66 | when every linked id is among the filter ids, the join yields one row per link |
| RecipeViews.ListedIffCopies | app/recipe/views.py:66-71 | a recipe is listed iff the owner filter and the two joins yield at least one row for it |
| RecipeViews.ListingCounts | app/recipe/views.py:66-71 | each stored recipe occurs in the listing exactly as often as stored times the rows the joins yield for it (no `distinct()`) |
| RecipeViews.ListRecipes | app/recipe/views.py:58-71 | `get_queryset` succeeds iff both parameters parse, reports a bad `tags` before `ingredients`, and on success lists exactly the owned rows passing both filters in descending id order, strictly descending over unique ids iff no listed recipe is repeated by a join |
| RecipeViews.ListRecipesCounts | app/recipe/views.py:58-71 | a successful `get_queryset` holds each stored recipe as often as stored times the rows the joins yield for it |
| RecipeViews.ListRecipesUnfiltered | app/recipe/views.py:71 | without parameters the listing holds exactly the acting user's recipes |
| RecipeViews.ListRecipesDetermined | app/recipe/views.py:58-71 | over unique ids a successful listing equals every id-descending sequence that holds each stored recipe as often as the joins yield it |
| RecipeViews.ListingDetermined | app/recipe/views.py:66-71 | over unique ids, when the joins yield every listed recipe once, the listing equals every strictly id-descending sequence of exactly the listed rows |
| RecipeViews.ListingDeterminedByCounts | app/recipe/views.py:66-71 | over unique ids the listing equals every id-descending sequence holding each stored recipe as often as the joins yield it |
| RecipeViews.EmptyParamIsNoFilter | app/recipe/views.py:64-69 | `?tags=` and `?ingredients=` behave exactly like absent parameters |
| RecipeViews.BothFiltersWithinEach | app/recipe/views.py:64-71 | the doubly filtered listing lies within each singly filtered one and within the unfiltered one |
| RecipeViews.IdsFilterShowIds | app/recipe/views.py:64-68 | a written-out non-empty id list becomes a filter on exactly those ids iff every id is within the 4300-digit limit |
| RecipeViews.ListRecipesThrough | app/recipe/views.py:64-71 | once both parameters parse, the listing is the filtered, owned, id-descending one |
| RecipeViews.TwoTaggedListings | app/recipe/views.py:66-71 | of two recipes tagged `t1` and `t2`, filtering on `t1` keeps the older only, and on `t1,t2` keeps both, newest first |
| RecipeViews.TagFilterThroughQuery | app/recipe/views.py:60-71 | the same through the query string `tags=t1` and `tags=t1,t2`, for tag ids within the digit limit |
| RecipeViews.CreateRecipe | app/recipe/views.py:73-75 | the saved recipe is owned by the acting user whatever the payload claims, and every other field is the payload's |
| RecipeViews.ListingIgnoresOthers | app/recipe/views.py:71 | a row of another user never changes a listing |
| RecipeViews.CreateRecipeInvisibleToOthers | app/recipe/views.py:71-75 | a recipe one user creates never changes what another user lists, under any parameters |
| RecipeViews.CreateRecipeListedFirst | app/recipe/views.py:71-75 | a new recipe whose id tops every stored id heads its creator's listing, and unique ids stay unique |
| RecipeViews.FindById | app/recipe/views.py:84 | the lookup finds nothing iff no row has the id, and what it finds is a row with that id |
| RecipeViews.GetRecipe | app/recipe/views.py:58-71 | `get_object()` (line 84 and the inherited detail actions) looks the id up within `get_queryset`: a bad parameter raises its parse error; a found recipe is stored, has the id, belongs to the acting user and passes both filters; a 404 happens iff no such row has the id; `MultipleObjectsReturned` only when such a row exists |
| RecipeViews.CountId | app/recipe/views.py:84 | no row of the listing has the id iff the count is zero, and the count never exceeds the listing |
| RecipeViews.CountIdCopies | app/recipe/views.py:84 | when one recipe alone has its id, the rows with that id are exactly its copies |
| RecipeViews.GetRecipeCopies | app/recipe/views.py:58-71 | over unique ids, looking up a stored recipe gives a 404 when the joins yield it not at all, the recipe when they yield it once, and `MultipleObjectsReturned` when they yield it more than once |
| RecipeViews.GetRecipeRepeatedByJoin | app/recipe/views.py:66 | a recipe tagged `t1` and `t2` under `?tags=t1,t2` is listed twice, and looking it up raises `MultipleObjectsReturned` instead of returning it |
| RecipeViews.ListRecipesRepeatedByJoin | app/recipe/views.py:64-71 | the same listing step by step: the parameter reads as `[t1, t2]`, the join yields the recipe twice, and the listing is `[x, x]` |
| RecipeViews.GetRecipeOthersNotFound | app/recipe/views.py:71 | a recipe of another user is never retrieved, updated, deleted or given an image; it is a 404 whenever both query parameters parse |
| RecipeViews.GetRecipeFindsOwn | app/recipe/views.py:71 | over unique ids, a user's own recipe is found by its id when no filter is given |
| Query.Filter | app/recipe/views.py:66-71 | `filter` keeps exactly the rows meeting the condition, never more copies than stored |
| Query.FilterKeepsCount | app/recipe/views.py:20 | a kept row occurs in the result as often as in the table |
| Query.FilterAppend | app/recipe/views.py:20-24 | filtering a table with one more row adds that row at the end iff it is kept |
| Query.FilterKeepsUniqueIds | app/recipe/views.py:71 | filtering a table with unique ids keeps them unique |
| Query.SortByNameDesc | app/recipe/views.py:20 | `order_by('-name')` returns a permutation of its input in descending name order |
| Query.SortByIdDesc | app/recipe/views.py:71 | `order_by('-id')` returns a permutation of its input in descending id order, strictly descending over unique ids |
| Query.StrictlyDescendingUnique | app/recipe/views.py:71 | two strictly id-descending sequences with the same rows are equal, so the ordering is unique |
| Query.DescendingUnique | app/recipe/views.py:71 | two id-descending sequences with the same multiset of rows, where rows sharing an id are one row, are equal |
| Query.StrictOnce | app/recipe/views.py:71 | in a strictly id-descending listing every row occurs once |
| Query.OnceUnique | app/recipe/views.py:71 | rows that each occur once, where rows sharing an id are one row, have unique ids |
| Query.Repeat | app/recipe/views.py:66 | `n` copies of a row: length `n`, every element that row, and its multiset holds that row `n` times and nothing else |
| Query.Expand | app/recipe/views.py:66-69 | the rows a join yields: each row occurs as often as stored times its number of matching links, and a row is present iff it is stored and has at least one |
| Query.ExpandAppend | app/recipe/views.py:66-69 | a join over a table with one more row yields the previous rows followed by that row's copies |
| PyInt.ParseInt | app/recipe/views.py:48 | `int(s)` succeeds iff the text left after trimming the whitespace `int()` skips is an optional sign and a digit run with single underscores between digits, of at most 4300 digits; the value is the digits' value, negated after a minus; a longer run raises the digit-limit error, any other text the invalid-literal error, and every error records the text that raised it |
| PyInt.ParseDigits | app/recipe/views.py:48 | a plain digit string reads as its decimal value when it has at most 4300 digits, and raises the digit-limit error otherwise |
| PyInt.ParseNegativeDigits | app/recipe/views.py:48 | a minus sign before at most 4300 digits reads as the negated value |
| PyInt.ParseNegativeTooLong | app/recipe/views.py:48 | a minus sign before more than 4300 digits raises the digit-limit error |
| PyInt.ShowInt | app/recipe/views.py:46-48 | `str(n)`, the way a client writes an id: digits only, with a leading minus exactly when `n` is negative |
| PyInt.ShowNat | app/recipe/views.py:46-48 | the decimal digits of a natural number: non-empty, digits only, and no leading zero for a positive number |
| PyInt.ParseSignedRun | app/recipe/views.py:48 | any trimmed text that is a sign and a digit run reads as that run's value when within the digit limit, and raises the digit-limit error otherwise |
| PyInt.ParsePadded | app/recipe/views.py:48 | whitespace `int()` skips around a signed digit run does not change its value or whether it is within the digit limit |
| PyInt.ParseShowInt | app/recipe/views.py:48 | round trip `int(str(n)) == n` for every integer of at most 4300 digits; a longer one raises the digit-limit error |
| PyInt.ParseIntEmpty | app/recipe/views.py:48 | `int("")` raises |
| PyInt.ParseIntSkipsSpace | app/recipe/views.py:48 | `int(" 7 ")` is 7 |
| PyInt.ParseIntPlusSign | app/recipe/views.py:48 | `int("+7")` is 7 |
| PyInt.ParseIntLeadingZeros | app/recipe/views.py:48 | `int("007")` is 7 |
| PyInt.ParseIntUnderscore | app/recipe/views.py:48 | `int("1_000")` is 1000 |
| PyInt.ParseIntKeepsFileSeparator | app/recipe/views.py:48 | U+001C, which `str.strip()` would remove, is not skipped by `int()`: `int("\x1c7")` raises |
| PyInt.ParseIntRejectsForeignChar | app/recipe/views.py:48 | a character other than a digit, sign or underscore inside the text `int()` reads makes it raise |
| PyInt.ParseIntRejectsDoubleUnderscore | app/recipe/views.py:48 | two underscores in a row inside the text `int()` reads make it raise |
| Text.Split | app/recipe/views.py:48 | `split(',')` has at least one piece and no piece contains the separator |
| Text.JoinSplit | app/recipe/views.py:48 | joining the pieces with the separator gives the parameter back |
| Text.SplitJoin | app/recipe/views.py:48 | splitting a join of separator-free pieces gives the pieces back |
| Text.SplitAround | app/recipe/views.py:48 | splitting at a separator splits each side independently |
| Text.StrLeTotal | app/recipe/views.py:20 | the name order compares every two names |
| Text.StrLeTransitive | app/recipe/views.py:20 | the name order is transitive |
| Text.StrLeAntisymmetric | app/recipe/views.py:20 | two names ordered both ways are equal |
| Text.Strip | app/core/models.py:14 | `str.strip()`: the result is no longer than the text and neither starts nor ends with white space |
| Text.StripPadded | app/core/models.py:14 | white space around a core that starts and ends with other characters is cut exactly, leaving the core; all-space text strips to nothing |
| Text.StripKeepsTrimmed | app/core/models.py:14 | a text that starts and ends with other characters is its own strip |
| Text.LastIndexOf | app/core/models.py:14 | the position `rsplit('@', 1)` cuts at holds an `@` with none after it, and there is none iff the text has no `@` |
| Text.Lower | app/core/models.py:14 | lower-casing keeps the length, maps every character through the ASCII lower-case mapping and leaves no upper-case letter |
| Users.NormalizeEmail | app/core/models.py:14 | without an `@` in the stripped text the address is kept as given; otherwise it is the stripped text cut at its last `@`, the local part unchanged and the domain lower-cased |
| Users.NormalizeParts | app/core/models.py:14 | a stripped address `local@domain` with no `@` in the domain normalises to `local@` followed by the lower-cased domain |
| Users.NormalizeIdempotent | app/core/models.py:14 | normalising a normalised address changes nothing |
| Users.NormalizeIgnoresDomainCase | app/core/models.py:14 | addresses differing only in the case of the domain normalise to the same address |
| Users.NormalizeTestAddress | app/core/tests/test_models.py:19-24 | `test@DOMAIN.COM` is stored as `test@domain.com` |
| Users.CheckPassword | app/core/tests/test_models.py:17 | `check_password` refuses `None` and refuses everything against an unusable credential; against a digest it accepts a candidate iff the candidate's digest equals it |
| Users.SetPassword | app/core/models.py:16 | `None` gives the unusable credential; otherwise a candidate is accepted iff its digest equals the password's |
| Users.CreateUser | app/core/models.py:9-19 | a missing or empty e-mail raises; an address whose normal form is taken is refused; otherwise the row is filed under the normalised address with the extra fields verbatim, the defaults active, not staff and not superuser for the rest, and a credential accepting exactly the password's digest |
| Users.CreateUserWithoutEmail | app/core/tests/test_models.py:26-29 | a missing or empty e-mail raises from both creators and leaves the table as it was |
| Users.CreateUserDuplicate | app/user/tests/test_user_api.py:38-43 | an address that normalises to a stored one is refused and adds no row |
| Users.CreateUserAddsOneRow | app/core/models.py:17 | a successful create keeps every row filed under its own address, adds exactly one row and leaves the others as they were |
| Users.InsertFreshRow | app/core/models.py:32 | filing a row under a new address keeps the table well formed and grows it by one |
| Users.EmailsUnique | app/core/models.py:32 | in a well-formed table no two rows share an e-mail |
| Users.CreateThenCheckPassword | app/core/tests/test_models.py:8-17 | with a hasher that tells passwords apart, the new account accepts its own password and no other |
| Users.CreateUserDefaults | app/core/models.py:33-35 | with no extra fields the account is active, not staff, not a superuser, with an empty name |
| Users.CreatedAddressIsNormal | app/core/models.py:14-17 | the stored address is already in normal form, so looking it up again finds the row |
| Users.CreateSuperuser | app/core/models.py:21-28 | `create_superuser` fails exactly when `create_user` with no extra fields would, with the same error; otherwise it saves that same account with both flags raised |
| Users.SuperuserAccount | app/core/tests/test_models.py:31-38 | a superuser is filed under the normalised address, is active and staff and superuser, and accepts exactly the passwords with its password's digest |
| Users.CreateSuperuserAddsOneRow | app/core/models.py:21-28 | a successful `create_superuser` adds exactly one row and keeps the table well formed |

## Left out

- Authentication, permissions and HTTP: token authentication, `IsAuthenticated`, status codes and serialisation to JSON are not modelled. The acting user is a parameter.
- `get_serializer_class` and the serializers: they choose output shapes and validate payloads, for example the refusal of an empty tag name. None of that is in the view code.
- Retrieve, update (PUT/PATCH), delete and `upload_image` on recipes: `RecipeViews.GetRecipe` models the lookup they share, which goes through `get_queryset` (views.py lines 58-71) and so is scoped to the owner and honours `?tags=` and `?ingredients=`. What each action then does with the row (the serializer update, the deletion, storing the image file) is not modelled.
- RecipeViews.Listing: rows with equal ids come out in one order the sort fixes, while SQL leaves the order of ties unspecified. Over unique ids the tied rows are copies of one recipe, so this changes nothing (`ListingDeterminedByCounts`).
- RecipeViews.ListAttrs: names are ordered by code point; database collation is not modelled.
- Text.Lower: only ASCII letters are lower-cased, so `normalize_email` on a non-ASCII domain is not modelled faithfully.
- PyInt.ParseInt: only ASCII digits are accepted. Python also accepts other Unicode decimal digits.
- PyInt.ParseInt: the digit limit is the default 4300; `sys.set_int_max_str_digits` and `PYTHONINTMAXSTRDIGITS` are not modelled, nor interpreters older than the limit. CPython counts the leading digit run before it looks at the rest of the text, so for a run of more than 4300 digits followed by stray characters CPython raises the digit-limit error where the model raises the invalid-literal error. Both are a `ValueError`.
- PyInt.ParseInt: the error messages are abstracted to the text that raised. CPython's invalid-literal message shows the text's repr cut to 200 characters, and its digit-limit message shows only the digit count, so two errors the model tells apart may read the same in Python.
- PyInt.ShowInt: Python's `str(n)` raises for an integer of more than 4300 digits; the model writes all the digits, and `ParseShowInt` shows that such text is refused when read back.
- Users.CreateUser: the `max_length` limits of the e-mail (100) and name (255) columns are database checks and are not enforced.
- Users.CreateUser: the unique-constraint violation is modelled as a refusal before the insert; the database raises it at `save()`, and the effect on the table is the same.
- Users.CreateUser: the model represents only the name and the three flags among the extra fields; `id`, `last_login` and the other concrete columns the model constructor also accepts are not modelled, nor the `TypeError` raised for unknown names or the many-to-many fields.
- Users.SetPassword: salting and the hash algorithm are abstracted into the `hash` parameter.
- Concurrency: two concurrent creates, and the database's primary-key allocation, are out of scope. New ids are parameters.
- The admin site and the user API views call the manager but are not part of this model.
