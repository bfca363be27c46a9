# Know-Your-Recipe: a Dafny model of the recipe backend's core

Know-Your-Recipe is a recipe-management REST backend. Its real behaviour sits in the
recipe aggregate writer. That writer turns a recipe payload with nested `{name}` lists
of tags and ingredients into tag rows, ingredient rows and recipe links. Around it sit
several small pieces of logic:

- the standalone tag and ingredient create-or-return-existing serializers;
- the recipe model's column bounds, difficulty labels and five-tag `clean` check;
- the user manager (`create_user`, `create_superuser`, e-mail normalisation, competence labels);
- the registration serializer;
- the lookup, ownership and listing helpers;
- the PDF file name derivation.

The model is functional. The database is an immutable record `Store.Db` of four tables.
Each table is a sequence, and a row's primary key is its position. No modelled operation
deletes a row, so "the first row that matches" is the lowest position.

- **Tags** are unique by name across the whole table (`Tags.NamesUnique`).
- **Ingredients** are unique per (user, name) (`Ingredients.KeysUnique`).
- **Recipes** hold their scalar columns, an owner (a user's key) and two link sets.

Create and update are pure functions from one database to the next. The clock is an
argument (`now`). Each request runs alone. So the "insert, then fetch the existing row
on an IntegrityError" fallback and `get_or_create` become the same resolve-or-create
function.

Modules:

| file | module | what it holds |
|---|---|---|
| wrappers.dfy | `Wrappers` | `Option`, `Result`, `Outcome` |
| text.dfy | `Text` | ASCII `lower()`, one-character `replace`, last index of a character, `strip()` |
| choices.dfy | `Choices` | the label lookup of a Django `choices` list |
| cardinality.dfy | `Cardinality` | integer ranges as sets, and the size of an injective image |
| sorting.dfy | `Sorting` | descending insertion sort: order, permutation, distinctness |
| users.dfy | `Users` | user rows, `create_user`, `create_superuser`, e-mail normalisation, competence labels |
| tags.dfy | `Tags` | tag rows, lookup by name, resolve-or-create |
| ingredients.dfy | `Ingredients` | ingredient rows, lookup by (user, name), the ingredient serializer's create |
| recipes.dfy | `Recipes` | recipe rows, column bounds, difficulty labels, `clean` |
| store.dfy | `Store` | the database record and its constraints |
| recipe_writer.dfy | `RecipeWriter` | recipe payload validation, tag and ingredient resolution, create, update |
| writer_properties.dfy | `WriterProperties` | properties of the writer that relate several calls or count rows and links |
| queries.dfy | `Queries` | `check_user_exists`, `get_user`, the id lookups, ownership checks, listings |
| query_properties.dfy | `QueryProperties` | the lookups against each other and against the writer |
| pdf.dfy | `Pdf` | the PDF file name and its `Content-Disposition` header |
| registration.dfy | `Registration` | the registration serializer end to end |

Design decisions:

- **Tag uniqueness.** Earlier schema revisions tied tags to a user. The current tag model has
  one global, unique name column, and the writer looks tags up by name alone. The model uses
  global uniqueness, as the code does.
- **Transactions.** The code opens no transaction around a write, and the model claims no atomicity.
- **Ownership on update.** `user` is a read-only field of the recipe serializer. Validation
  drops it, so an update cannot move a recipe to another owner.

Two consequences of the code as written are proved as lemmas rather than assumed away:

- **The five-tag cap is never applied by the writer.** `WriterProperties.WriterDoesNotEnforceTagCap`
  shows that a payload with more than five distinct tag names creates a recipe that `clean` would reject.
- **The form cannot register a second user.** The username column is unique and defaults to
  the empty string, and the registration form has no username field. So once one user has
  registered through the form, every later registration through it is refused (see
  `Registration.OnlyOneFormRegistration`). This depends on the database applying the unique
  constraint to empty strings, which common back ends do. The project's own normalisation test
  (apps/users/tests.py:28-45) expects the opposite of the manager: it creates four users without
  a username and expects each to succeed. "## Findings" records that conflict.

## Model

| member | source | states |
|---|---|---|
| Text.Lower | apps/utils/generate_pdf.py:39 | `lower()` keeps the length and lowers each character on its own; only ASCII capitals change |
| Text.ReplaceChar | apps/utils/generate_pdf.py:39 | `replace(' ', '_')` keeps the length and swaps exactly the matching characters |
| Text.LastIndexOf | apps/users/models.py:17 | the position of the last '@' (the split point of e-mail normalisation), or -1 when there is none; no later '@' exists |
| Text.LowerHasNoUpper | apps/utils/generate_pdf.py:39 | a lowered string has no ASCII capital |
| Text.LowerIdempotent | apps/users/models.py:17 | lowering twice is lowering once |
| Text.TrimStart | apps/tags/serializers.py:8 | `lstrip()`: the result is a suffix of the input, everything dropped is whitespace, and it does not start with whitespace |
| Text.TrimEnd | apps/tags/serializers.py:8 | `rstrip()`: the result is a prefix of the input, everything dropped is whitespace, and it does not end with whitespace |
| Text.Trim | apps/tags/serializers.py:8 | `strip()`, which every text field of the serializers applies: never longer than the input, blank exactly when the input is all whitespace, otherwise starting and ending with a non-space |
| Text.TrimStartPadded | apps/tags/serializers.py:8 | whitespace in front of a text that starts with a non-space is exactly what `lstrip()` removes |
| Text.TrimEndPadded | apps/tags/serializers.py:8 | whitespace after a text that ends with a non-space is exactly what `rstrip()` removes |
| Text.TrimPadded | apps/tags/serializers.py:8 | any whitespace padding around a text without surrounding whitespace strips back to that text, so " Indian" strips to "Indian" |
| Text.TrimIdempotent | apps/tags/serializers.py:8 | stripping a stripped value changes nothing |
| Choices.Label | apps/recipes/models.py:39-43 | the loop over a choices list returns the label of the first pair with the key, and None exactly when no pair has it |
| Choices.LabelOfDistinct | apps/users/models.py:71-75 | when the keys are distinct, the lookup of the i-th key returns the i-th label |
| Sorting.Insert | apps/utils/db_queries.py:28 | inserting into a descending list keeps it descending, adds one element and keeps all the others |
| Sorting.InsertPermutes | apps/utils/db_queries.py:28 | insertion adds exactly one occurrence of the element (multiset) |
| Sorting.InsertDistinct | apps/utils/db_queries.py:28 | inserting a new element keeps the list free of duplicates |
| Sorting.SortDesc | apps/utils/db_queries.py:28 | `order_by('-created_at')`: the result has the same length and elements and is in non-increasing key order |
| Sorting.SortDescPermutes | apps/utils/db_queries.py:28 | the ordering is a permutation of its input |
| Sorting.SortDescDistinct | apps/utils/db_queries.py:64 | ordering a list without duplicates yields one without duplicates |
| Sorting.SortDescMembers | apps/utils/db_queries.py:64 | ordering neither adds nor drops an element |
| Users.NormalizeEmail | apps/users/models.py:17 | the local part up to the last '@' is kept as given and every later character is lowered; an address without '@' is unchanged; the length is kept |
| Users.CreateUser | apps/users/models.py:12-22 | the only errors are "email must be set", exactly for an empty e-mail, and a unique violation, exactly when the normalised e-mail or the username is already stored; otherwise it appends one row with the normalised e-mail, the password, the given username and names (empty when absent) and the given or default flags and competence, and keeps both columns unique |
| Users.NewUser | apps/users/models.py:18 | the constructor keeps the e-mail and password; a supplied keyword always wins; with no keywords the row has empty username and names, is active, neither staff nor superuser, and has competence 0 |
| Users.SuperuserDefaults | apps/users/models.py:27-29 | `setdefault`: an absent staff, superuser or active flag becomes true, an explicit one is kept, and every other keyword is untouched |
| Users.CreateSuperuser | apps/users/models.py:24-35 | an explicit `is_staff=False` is refused first, then an explicit `is_superuser=False`; otherwise it is `create_user` with staff, superuser and active defaulted to true, so a new superuser is staff and superuser, and an empty e-mail still fails |
| Users.CompetenceDisplay | apps/users/models.py:52-75 | the label for competence 0..5 (Not chosen, Novice, Intermediate, Proficient, Advanced, Expert) and None for any other level |
| Users.NormalizeEmailIdempotent | apps/users/models.py:17 | normalising a normalised address changes nothing |
| Users.NormalizeSplit | apps/users/models.py:17 | `local@domain` normalises to `local@` followed by the lowered domain, so `test1@EXAMPLE.com` stores as `test1@example.com` |
| Users.DefaultCompetenceIsNotChosen | apps/users/models.py:61-64 | a user created without a level has level 0, labelled "Not chosen" |
| Users.SecondUserWithSameEmailFails | apps/users/models.py:41-44 | once an address is stored, creating a user with any spelling that normalises to it fails with a unique violation |
| Users.SecondUserWithoutUsernameFails | apps/users/models.py:45 | the username column is unique and defaults to "", so a second user created without a username is refused |
| Users.NormalizationTestRefusedAsWritten | apps/users/tests.py:28-45 | with the column as declared, the normalisation test's first call succeeds and its second, with a fresh address and no username, is refused |
| Users.CreateUserBlankUsername | apps/users/models.py:12-22 | `create_user` with a nullable username column: the same errors, except that only a non-empty username can clash; it agrees with `CreateUser` whenever a username is given or the declared column accepts the row; it appends the constructor's row and keeps e-mails and non-empty usernames unique |
| Users.SecondUserWithoutUsernameAccepted | apps/users/tests.py:28-45 | under the nullable rule, a second user without a username and with a new address is accepted and stores its normalised address |
| Users.CreateInTurnSucceeds | apps/users/tests.py:28-45 | under the nullable rule, any list of addresses with distinct, unstored normal forms is accepted in turn without usernames, each row storing its normalised address after the existing rows |
| Tags.Find | apps/recipes/serializers.py:47 | `filter(name=...).first()`: None exactly when no tag has the name; otherwise the lowest key with that name |
| Tags.GetOrCreate | apps/tags/serializers.py:15-22 | the returned row carries the requested name; a taken name returns that row and leaves the table alone; a new name appends exactly one row with the requester as creator and an empty description; the name stays unique |
| Tags.NameValid | apps/tags/serializers.py:8 | the name field accepts a value exactly when it holds a character other than whitespace; uniqueness is not validated |
| Tags.TakenNameResolvesToExisting | apps/tags/serializers.py:8-22 | a submitted name that strips to a taken one (" Indian" for "Indian") passes validation when the stored name is not blank, and creating it returns the existing row with its original creator and description, whoever asks, without adding a row |
| Tags.GetOrCreateIdempotent | apps/tags/serializers.py:18-22 | creating the same name twice adds at most one row and returns the same row both times |
| Ingredients.Find | apps/ingredients/serializers.py:22 | `get(user=..., name=...)`: None exactly when no row has the pair; otherwise a row holding the pair, which is the only one while the unique pair constraint `Ingredients.KeysUnique` holds |
| Ingredients.GetOrCreate | apps/recipes/serializers.py:61-64 | the returned row is exactly (name, user); an existing pair changes nothing; a new pair appends one row; pairs stay unique |
| Ingredients.Create | apps/ingredients/serializers.py:15-22 | fails exactly when the validated data has no user; otherwise the returned row has the given name and user, at most one row is added, and the table is unchanged exactly when the pair existed |
| Ingredients.KeyIsThePair | apps/ingredients/serializers.py:22 | the same name for two users gives two distinct rows, and for one user gives one row |
| Recipes.FieldsWithinBounds | apps/recipes/models.py:19-32 | the column constraints hold exactly when the title has at most 60 characters, the link at most 255, the preparation time lies in 0..2147483647 (the positive integer column's range), the price lies within plus or minus 999.99 (cents below 100000 in magnitude) and the difficulty is one of 0..3 |
| Recipes.DifficultyDisplay | apps/recipes/models.py:12-17 | the label for difficulty 0..3 (Not chosen, Novice, Intermediate, Advanced) and None for any other value |
| Recipes.Clean | apps/recipes/models.py:45-48 | passes exactly when at most five tags are linked; otherwise fails with "A recipe can have at most 5 tags." |
| RecipeWriter.CleanNames | apps/recipes/serializers.py:13-14 | each nested `{name}` is handed on stripped, in order: blank exactly when the submitted name is all whitespace, and otherwise without surrounding whitespace |
| RecipeWriter.CleanNamesIdempotent | apps/recipes/serializers.py:13-14 | names already handed on pass through the nested fields unchanged |
| RecipeWriter.FieldErrors | apps/recipes/serializers.py:10-34 | each failing field is reported under its own key and no other key appears: title required unless partial, stripped, non-blank and at most 60; preparation time required unless partial and within 0..2147483647; price required unless partial and strictly between -100000 and 100000 hundredths; difficulty, when given, within 0..3; the tag or ingredient list refused exactly when one of its names strips to blank |
| RecipeWriter.Validate | apps/recipes/serializers.py:10-39 | a payload is accepted exactly when every field passes, and a refusal names exactly the failing fields; an accepted full payload has title, preparation time and price; accepted values respect the column bounds; only the writable fields pass through, the title and every nested name stripped and the numbers unchanged |
| RecipeWriter.ResolveTags | apps/recipes/serializers.py:41-55 | old rows are kept as a prefix; every name ends up with a row; new rows carry a payload name no old row had, with the recipe owner as creator; if every name existed nothing is added; names stay unique and the links are exactly the old links plus the rows named in the payload |
| RecipeWriter.ResolveIngredients | apps/recipes/serializers.py:57-65 | old rows are kept as a prefix; every name ends up with a row of the owner; new rows belong to the owner and carry a name that had no row for them; pairs stay unique and the links are exactly the owner's rows with a payload name |
| RecipeWriter.Create | apps/recipes/serializers.py:67-76 | appends one recipe owned by the acting user, created now, with the payload's scalars, difficulty 0 when absent, and empty description and link; old rows are kept; every payload tag name has a tag row and every payload ingredient name has a row of the owner afterwards; new tag and ingredient rows belong to the owner; the links are exactly the rows named in the payload, so every name is linked |
| RecipeWriter.Update | apps/recipes/serializers.py:78-92 | other recipes and all users are unchanged and no row is removed; owner, creation time, description and link never change; each supplied scalar replaces the stored one and an absent one is kept; an absent list leaves its links and table alone; every name of a supplied list has a row afterwards (a tag row, or an ingredient row of the recipe's owner), and the list, even an empty one, replaces the links with exactly the rows carrying its names |
| WriterProperties.ResolveTagsSettled | apps/recipes/serializers.py:45-55 | when every name already has a row, resolving adds no row and links exactly the rows carrying those names |
| WriterProperties.ResolveIngredientsSettled | apps/recipes/serializers.py:59-65 | when every name already has a row of the owner, resolving adds no row and links exactly those rows |
| WriterProperties.TagLinkCount | apps/recipes/serializers.py:53-55 | links are set-like: a link set naming exactly the payload's rows has one link per distinct name, however often a name repeats |
| WriterProperties.GrowthIsNovelNames | apps/recipes/serializers.py:47-51 | a table grown only by rows with new payload names, and naming every payload name, grew by exactly the number of new names |
| WriterProperties.ResolveTagsRowCount | apps/recipes/serializers.py:47-51 | resolving a tag list appends exactly one row per payload name that no row carried before |
| WriterProperties.CreateTagRowCount | apps/recipes/serializers.py:67-76 | create adds exactly one tag row per new distinct name in the payload |
| WriterProperties.CreateTagLinkCount | apps/recipes/serializers.py:53-55 | a new recipe has one tag link per distinct payload name |
| WriterProperties.CreateReusesExistingTag | apps/recipes/serializers.py:47-51 | a payload name that another user's tag already carries links that row, leaves it unchanged and creates no second row with the name |
| WriterProperties.IngredientRowsPerOwner | apps/recipes/serializers.py:59-65 | two recipes created with the same ingredient name each link a row (name, own owner), and the rows they link under that name are the same row exactly when the owners are the same |
| WriterProperties.CreateWithoutLists | apps/recipes/serializers.py:68-69 | with no tag or ingredient list, create links nothing and adds no tag or ingredient row |
| WriterProperties.CreatePreservesValid | apps/recipes/serializers.py:67-76 | create keeps every unique constraint and foreign key when the owner is a user |
| WriterProperties.UpdatePreservesValid | apps/recipes/serializers.py:78-92 | update keeps every unique constraint and foreign key |
| WriterProperties.UpdateEmptyTagListClearsLinksOnly | apps/recipes/serializers.py:82-84 | an empty tag list removes every tag link, but every tag the recipe linked is still in the table, unchanged |
| WriterProperties.OwnerIsReadOnly | apps/recipes/serializers.py:30-34 | the `user`, `id` and `created_at` a payload carries do not affect validation, and update never changes the owner or the creation time |
| WriterProperties.UpdateWithSettledData | apps/recipes/serializers.py:78-92 | an update whose payload the recipe already reflects changes nothing |
| WriterProperties.UpdateIdempotent | apps/recipes/serializers.py:78-92 | updating twice with the same payload gives the same database as updating once, whatever the clock says |
| WriterProperties.SecondSaveChangesNothing | apps/recipes/views.py:57-58 | the create view's second save runs update with the same data and changes no link, row or scalar |
| WriterProperties.WriterDoesNotEnforceTagCap | apps/recipes/models.py:45-48 | create does not apply `clean`: a payload with more than five distinct tag names yields a recipe `clean` rejects |
| WriterProperties.ValidatedCreateWithinBounds | apps/recipes/models.py:19-32 | a recipe created from an accepted payload satisfies every column bound |
| WriterProperties.ValidatedUpdateKeepsBounds | apps/recipes/models.py:19-32 | an update from an accepted payload keeps a recipe within the column bounds |
| WriterProperties.CreateWithKnownTagNames | apps/recipes/serializers.py:45-51 | a create whose tag names all have rows adds no tag row |
| WriterProperties.PaddedTagNamesReuseTags | apps/recipes/serializers.py:13 | a tag name submitted with surrounding whitespace is stripped and reuses the stored tag: no row is added and the links are exactly the stored rows with the stripped names |
| WriterProperties.CreatedWithoutDifficultyIsNotChosen | apps/recipes/models.py:29-32 | a recipe created without a difficulty gets the default 0, a valid choice displayed as "Not chosen" |
| Queries.CheckUserExists | apps/utils/db_queries.py:8-14 | only the first supplied key is consulted, in the order id, e-mail, username; with no key the answer is false |
| Queries.FirstFrom | apps/utils/db_queries.py:19-21 | `filter(...).first()`: the lowest matching key, and None exactly when nothing matches |
| Queries.GetUser | apps/utils/db_queries.py:17-24 | an existing id wins; otherwise the first user with the e-mail, then the first with the username; None exactly when no supplied key matches |
| Queries.RowById | apps/utils/db_queries.py:39-46 | the recipe or tag with that key, or None exactly when there is none; both lookups are this one function on their table |
| Queries.RecipeOwner | apps/utils/db_queries.py:49-53 | true exactly when the looked-up recipe's owner is the acting user; the recipe must exist |
| Queries.TagOwner | apps/utils/db_queries.py:56-60 | true exactly when the looked-up tag's creator is the acting user; the tag must exist |
| Queries.Positions | apps/utils/db_queries.py:64 | the keys below n that satisfy the filter, each once |
| Queries.AllRecipes | apps/utils/db_queries.py:27-30 | every recipe exactly once, newest first |
| Queries.MyRecipes | apps/utils/db_queries.py:63-66 | exactly the acting user's recipes, each once, newest first |
| Queries.AllTags | apps/utils/db_queries.py:33-36 | every tag exactly once, newest first |
| Queries.MyTags | apps/utils/db_queries.py:69-72 | exactly the tags the acting user created, each once, newest first |
| QueryProperties.ExistsImpliesFound | apps/utils/db_queries.py:8-24 | whatever the existence check confirms, the lookup finds |
| QueryProperties.CheckAndLookupDisagree | apps/utils/db_queries.py:8-24 | with an unknown id and a stored e-mail, the existence check says false while the lookup falls through and finds the user |
| QueryProperties.CheckIgnoresLaterKeys | apps/utils/db_queries.py:10-12 | keys after the first supplied one do not change the existence check |
| QueryProperties.LookupByEmailIsTheUser | apps/utils/db_queries.py:20 | on a table with unique e-mails, the lookup by a stored address returns its user |
| QueryProperties.CreatorOwnsNewRecipe | apps/utils/db_queries.py:49-53 | a newly created recipe passes the ownership check for its creator only, and is listed among the creator's recipes and nobody else's |
| QueryProperties.UpdateKeepsOwnership | apps/utils/db_queries.py:49-53 | an update never changes who passes the recipe ownership check |
| QueryProperties.TagOwnerAfterCreate | apps/utils/db_queries.py:56-60 | after a tag create, a new name belongs to the requester and a taken name still belongs to its original creator |
| QueryProperties.NewRecipeListedFirst | apps/utils/db_queries.py:27-30 | with a clock that moves forward, the recipe just created heads the newest-first listing |
| Pdf.Stem | apps/utils/generate_pdf.py:39 | the stem has the title's length, and each character is the title's with a space turned into '_' and a capital lowered |
| Pdf.Filename | apps/utils/generate_pdf.py:39 | the file name is the stem followed by `_recipe.pdf`; it contains no space and no ASCII capital |
| Pdf.ContentDisposition | apps/utils/generate_pdf.py:49 | the header is `attachment; filename="`, the file name, and a closing quote |
| Pdf.ParseDisposition | apps/utils/generate_pdf.py:49 | a name read back from a header rebuilds that header |
| Pdf.DispositionRoundTrip | apps/utils/generate_pdf.py:49 | the header names exactly the file name it was built from |
| Pdf.ExportHeaderNamesFile | apps/utils/generate_pdf.py:39-49 | the export's header names the title's file name |
| Pdf.StemIdempotent | apps/utils/generate_pdf.py:39 | deriving the stem of a stem changes nothing |
| Pdf.FilenameCollision | apps/utils/generate_pdf.py:39 | two titles share a file name exactly when they agree character by character up to letter case and space versus underscore |
| Registration.FieldErrors | apps/users/serializers.py:16-34 | the failing declared fields of the stripped form: e-mail required, non-blank, at most 255, well-formed and not already stored; names 3..32; password 8..255 and meeting the password rules; confirmation required, non-blank, at most 255 |
| Registration.Validate | apps/users/serializers.py:36-44 | refuses exactly when the two passwords differ (an absent one differs from a present one); otherwise returns the data without `confirm_password`, other fields unchanged; with neither present the deletion fails |
| Registration.Declared | apps/users/serializers.py:16-34 | only the declared fields of the form are read, each value stripped of surrounding whitespace |
| Registration.Response | apps/users/serializers.py:16-29 | the response carries e-mail, first and last name of the stored user and never a password |
| Registration.Submit | apps/users/serializers.py:36-49 | on the stripped form: failing fields refuse with exactly those fields; with every field passing, differing passwords are refused under `confirm_password`, and equal ones register exactly when neither the normalised address nor the empty username is stored, any refusal then being a unique violation; a success appends one user with the normalised e-mail, the names, the password and an empty username and answers with the stored row |
| Registration.Register | apps/users/serializers.py:13-49 | the same as `Submit`, stated on the raw form: failing fields refuse with exactly those fields; a form passing its field checks is refused under `confirm_password` exactly when its stripped passwords differ, and otherwise registers exactly when neither its normalised stripped address nor the empty username is stored; a success stores the stripped names and password and the normalised stripped e-mail |
| Registration.ShortPasswordRejected | apps/users/tests.py:113-127 | a password shorter than eight characters is refused on the password field and no user is created |
| Registration.SameFormTwiceFails | apps/users/tests.py:99-111 | sending a form again after it registered a user fails, and with an address already in normal form the e-mail field itself is reported |
| Registration.DomainCaseVariantReachesDatabase | apps/users/serializers.py:46-49 | an address that differs from a stored one only in the case of its domain passes the field checks and is refused by the unique e-mail column |
| Registration.RefusedOnceUsernameTaken | apps/users/models.py:45 | once the empty username is stored, every form registration is refused |
| Registration.OnlyOneFormRegistration | apps/users/models.py:45 | once one user has registered through the form, the unique empty username refuses every later registration |

## Left out

- HTTP views, URL routing, JWT login, permissions, admin pages and the schema generator are framework glue. The model starts at the serializer and manager calls. The one piece of view behaviour it keeps is the create view's double save, covered by `WriterProperties.SecondSaveChangesNothing`.
- The tag views save with `user=` while the tag model field is `creator`. The model assumes the creator arrives as `creator`.
- Password hashing is left out. A password is stored as the opaque value given.
- Text.Lower: lowers ASCII capitals only. Python's `lower()` also lowers other scripts, so for non-ASCII titles and domains the model is weaker than the source.
- Users.NormalizeEmail: models the split at the last '@' and the ASCII lowering of the domain. The framework's handling of `None` and its own stripping of surrounding whitespace are not modelled. Registration strips the address before it reaches the manager, so this matters only for direct calls.
- The project's custom password validators and the e-mail format validator are not part of this model. They appear as predicate parameters of `Registration.Register`.
- The framework's text fields also refuse values containing a NUL character or a lone surrogate. The model does not check for those.
- The ingredient model file is not part of this model, so the length limit of an ingredient name is not modelled. The nested tag name field declares no length limit, and the model checks none; the 255-character column limit is left to the database.
- Registration.FieldErrors: the uniqueness check compares addresses exactly. A database whose text comparison ignores case would also catch case variants.
- Queries.AllRecipes: orders by creation time only. Rows with equal creation times come in whatever order the database returns, so the model claims only a non-increasing order.
- Queries.MyRecipes: like `AllRecipes`, it claims only a non-increasing order among rows with equal creation times.
- The model represents the serialized listing output as the ordered list of primary keys. Nested serialization of each row is left out.
- Recipe and user `__str__` return the title and the e-mail field as they are. They are plain field reads, so they need no model.
- The OTP generator, OTP caching and e-mail sending involve randomness, floating point and I/O.
- The HTML templates and the ReportLab PDF layout are left out. Only the file name and the header are modelled.
- `updated_at` is not modelled; it is a clock reading with no behaviour attached.
- Timestamps are natural numbers, used only for ordering.
- The upper bound of the preparation time is the range Django gives a positive integer column on most back ends (2147483647). A back end with a different range would move that bound.
- Prices are integer hundredths. The decimal field refuses a submitted price with more than two decimal places; such a price cannot be written in integer hundredths, so that refusal and the parsing of decimal text are not modelled.
- Concurrency is left out. The check-then-create race and its IntegrityError fallback are modelled one request at a time, as "key present, return the existing row". The source opens no transaction, and no atomicity is claimed.
- Recipe deletion and ingredient update and delete live in views and are left out. Without deletion, primary keys are positions.
- The recipe detail serializer's `description` and `link` fields are left out. The writer modelled here is the base recipe serializer that the create view uses, and it does not declare those fields.
- `write_only_fields` in the recipe serializer's options has no effect in the framework, so it is ignored.

## Findings

| source | as written | input that shows it | evidently intended | confidence | as-written member | corrected member |
|---|---|---|---|---|---|---|
| apps/users/models.py:45, apps/users/tests.py:28-45 | `username` is a unique column whose value defaults to the empty string, so a second user created without a username violates the constraint | `create_user` with `test1@EXAMPLE.com`, then with `Test2@Example.com`, both without a username, as the normalisation test does | the normalisation test expects four users created without a username to succeed, so a missing username should not count against uniqueness, as with a nullable unique column | medium: the test and the field declaration disagree, and either could be the one the authors meant; not executed | Users.NormalizationTestRefusedAsWritten | Users.CreateUserBlankUsername |

`Users.SecondUserWithoutUsernameFails` states the as-written behaviour for every table;
`Users.SecondUserWithoutUsernameAccepted` and `Users.CreateInTurnSucceeds` prove the intended
property of the corrected manager. The registration model keeps the column as declared, since
that is the constraint the database applies; `Users.CreateUserBlankUsername` gives the same
result as `Users.CreateUser` on every call the declared column accepts.
