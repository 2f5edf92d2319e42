# nyt: a Dafny model of the timezone bot's core

`nyt` is a Discord bot with two slash commands, `now` and `longnow`. Each one
shows the current time in a timezone the user picks from an autocomplete list.
This project models the logic of the bot in three pieces:

- **The timezone catalog** `AVAILABLE_TIMEZONES` (`labels.dfy`, `catalog.dfy`).
  Every zone identifier of the tz database is filed under its label: the text
  after the last `/`, with `_` shown as a space. For example,
  `America/New_York` is filed as `New York`. When two zones share a label,
  the zone iterated later wins.
- **The autocomplete handler** `get_timezones` (`autocomplete.dfy`). It takes
  the fuzzy matches of the query (at most 25, with cutoff 0.6). The labels
  that start with the query, ignoring case, and are not fuzzy matches come
  first, cut to the slots the fuzzy matches leave free. The fuzzy matches
  come last. Each label is paired with its zone identifier.
- **The command handler** `reply` (`time_command.dfy`). It rejects an
  argument that is not a catalog key. A missing argument defaults to
  `Europe/Helsinki`. It then loads the zone and answers with the time in the
  command's format.

Python leaves the iteration order of a `set` unspecified. The model takes
each such order as a parameter:

- the order of `zoneinfo.available_timezones()`;
- the order of `options.difference(close_match)`.

The properties are then proved for every possible order. Where the result does
depend on the order, the lemmas say how.

In `get_timezones`:

- the fuzzy matches come last;
- the fuzzy-match cutoff is 0.6;
- nothing is sorted;
- the fuzzy matches are never cut;
- only the prefix matches are cut, to `25 - len(close_match)`.

## Model

| member | source | states |
|---|---|---|
| Labels.RPartition | __main__.py:15 | `rpartition` with a one-character separator. The three parts concatenate back to the input and the tail holds no separator. The middle part is the separator, or empty together with the head. It is empty exactly when the input holds no separator. |
| Labels.LastSegment | __main__.py:15 | The `name` part of `zone.rpartition('/')`. It is a suffix of the identifier that holds no `/`. It is the whole identifier or is preceded by a `/`. |
| Labels.LastSegmentUnique | __main__.py:15 | These three properties determine the last segment uniquely. |
| Labels.ReplaceUnderscores | __main__.py:13 | `replace('_', ' ')` keeps the length, replaces position by position, and leaves no `_`. |
| Labels.ReplaceUnderscoresIdempotent | __main__.py:13 | Replacing twice gives what replacing once gives. |
| Labels.ReplaceUnderscoresUnchanged | __main__.py:13 | A name without `_` is unchanged. |
| Labels.Label | __main__.py:13-15 | A label holds neither `_` nor `/` and is no longer than its identifier. |
| Labels.LabelIsIdentityIff | __main__.py:13-15 | A zone is its own label exactly when it holds neither `/` nor `_`. |
| Catalog.IndexByLabel | __main__.py:12-16 | The dict comprehension. Every zone's label is a key. Every key maps to a zone of the input whose label is that key. |
| Catalog.IndexLastWins | __main__.py:12-16 | A key holds the last zone, in iteration order, that has that label. |
| Catalog.IndexOrderIndependent | __main__.py:12-16 | Without label collisions, any two iteration orders of the same zones give the same dict. |
| Catalog.BuildCatalog | __main__.py:12-16 | `AVAILABLE_TIMEZONES`. Every zone's label is a key. Every key maps to a zone with that label. |
| Catalog.CatalogLabelsClean | __main__.py:12-16 | Every key holds neither `_` nor `/`. It equals the last segment of its value with `_` replaced. |
| Catalog.CatalogLastWins | __main__.py:12-16 | On a label collision, the catalog keeps the zone iterated last. |
| Catalog.CatalogCompleteWithoutCollisions | __main__.py:12-16 | Without collisions, every zone is the value at its own label. |
| Catalog.CatalogOrderIndependent | __main__.py:12-16 | Without collisions, the catalog does not depend on the iteration order of `available_timezones()`. |
| Catalog.SingleZoneCatalog | __main__.py:12-16 | The catalog of the single zone `region/city` is `{city: region/city}`. |
| Catalog.CollisionKeepsLastZone | __main__.py:12-16 | Two zones ending in the same city give a catalog with the one key `city`, mapped to the second zone. |
| Autocomplete.Lowered | __main__.py:58 | `lower()` keeps the length and maps every character. |
| Autocomplete.StartsWithIgnoringCase | __main__.py:58 | `zone.lower().startswith(current.lower())` holds exactly when the query is no longer than the label and the two agree position by position once lowered. |
| Autocomplete.CloseMatchContract | __main__.py:47-52 | What `get_close_matches` promises: at most `n` matches, none twice, all drawn from the possibilities. |
| Autocomplete.CloseMatches | __main__.py:47-52 | The bot's call: the query as the word, the catalog labels as the possibilities, n=25, cutoff=0.6. |
| Autocomplete.EmptyQueryIsPrefix | __main__.py:58 | The empty query starts every label, ignoring case. |
| Autocomplete.PrefixMatches | __main__.py:56-59 | `starts_with` holds exactly the candidates that start with the query, ignoring case. It has no repeats when the candidates have none, and it is no longer than them. |
| Autocomplete.SliceTo | __main__.py:63 | Python's `s[:k]`, including negative `k`, is a prefix of `s` of the length Python gives. |
| Autocomplete.ViewOrder | __main__.py:56-63 | See the list below the table. |
| Autocomplete.ToChoices | __main__.py:65-68 | Each label is paired, in order, with the zone the catalog maps it to. |
| Autocomplete.GetTimezones | __main__.py:43-68 | At most 25 choices. Each choice's name is a catalog key and its value is the catalog's entry for that key. The names are exactly `view_order`, computed with the fuzzy matches that `get_close_matches(current, options, n=25, cutoff=0.6)` returns. |
| Autocomplete.ViewOrderIndependentOfSetOrder | __main__.py:56-63 | For any two iteration orders of `options.difference(close_match)`, `view_order` has the same length. When fewer than 25 labels are offered, it has the same labels. |
| Autocomplete.EmptyQueryFillsAllSlots | __main__.py:56-63 | An empty query with at least 25 labels in the catalog fills all 25 slots. |
| Autocomplete.NoMatchNoChoices | __main__.py:56-63 | No fuzzy match and no prefix match give an empty list. |
| Autocomplete.SingleLabelView | __main__.py:47-63 | With one label as the only option, typing it gives `view_order == [label]`. This holds whether or not the matcher found the label, for every iteration order. |
| Autocomplete.SingleLabelOffered | __main__.py:43-68 | On the catalog `{city: zone}`, typing `city` offers exactly the choice (`city`, `zone`). This holds for every matcher within the contract of `get_close_matches`, including the real one, which returns `[city]`. |
| TimeCommand.InvalidTimezoneMessage | __main__.py:26 | The error text is the argument as typed, followed by ` is not a valid timezone. Please pick one from the list.` |
| TimeCommand.LoadZone | __main__.py:28 | `ZoneInfo(key)` succeeds exactly for keys of the tz database. It then shows the time in that zone; otherwise the key is not found. |
| TimeCommand.Reply | __main__.py:25-28 | See the list below the table. |
| TimeCommand.ReplyRejectsZoneIdentifiers | __main__.py:25-26 | Any argument holding `/` is rejected, since no catalog key holds one. |
| TimeCommand.ReplyShowsOnlySelfLabelledZones | __main__.py:25-28 | An explicit argument shows the time only when it is a tz key that holds neither `/` nor `_`. |
| TimeCommand.ChosenZoneRejected | __main__.py:25-28 | On the catalog of the single zone `region/city`, sending the chosen value `region/city` is rejected as invalid. Sending the label `city` passes the check but names no zone. |
| TimeCommand.ReplyByZone | __main__.py:25-28 | The check as intended: the argument is tested against the catalog's zone identifiers. Otherwise it behaves like `Reply`. |
| TimeCommand.ReplyByZoneAcceptsChoices | __main__.py:25-28 | With the intended check, the value of every choice the autocomplete offers shows the time in that zone. |
| TimeCommand.ReplyByZoneAcceptsEveryZone | __main__.py:25-28 | With the intended check and no collisions, an argument is accepted exactly when it is a zone the catalog was built from. |

`Autocomplete.ViewOrder` (`__main__.py:56-63`) states:

- the result has at most 25 labels, all catalog labels, none of them twice;
- every fuzzy match is present, in the matcher's order, at the end;
- every label before the fuzzy matches is not a fuzzy match and starts with the query, ignoring case;
- 25 fuzzy matches leave no room for prefix matches;
- a prefix match is left out only when all 25 slots are taken.

`TimeCommand.Reply` (`__main__.py:25-28`) states:

- the error reply is sent exactly when an argument is given and it is not a catalog key;
- the error message is `<timezone> is not a valid timezone. Please pick one from the list.`;
- no argument loads `Europe/Helsinki`;
- a catalog key is passed to `ZoneInfo` as given.

## Left out

- Discord itself is not modelled, because it is I/O outside the core:
  - the client and command tree (`__main__.py:18-19`);
  - command registration (`__main__.py:33`, `37-38`); the two strftime patterns reach the model only as the `timeFormat` parameter of `Reply`, which records it in the response;
  - the autocomplete decorators (`__main__.py:41-42`);
  - `send_message`, of which the model keeps only what is sent;
  - `main` and its token file, login, sync and event loop (`__main__.py:71-84`).
- `zoneinfo.available_timezones()` is a parameter, a sequence in some iteration order. The tz database on the host is outside the program.
- `ZoneInfo(key)` is modelled as membership in a set of tz keys. Raising an exception is modelled as the `ZoneNotFound` outcome. Loading zone files is left out.
- `datetime.now` and `format` are not modelled, because they read the clock. The reply records the zone and the format it would apply.
- `difflib.get_close_matches` is a function parameter. Its `SequenceMatcher` ratio scoring is left out. The model keeps what it promises: at most `n` distinct members of the possibilities. The arguments the bot passes (n=25, cutoff=0.6) are fixed in `CloseMatches`.
- `str.lower` is an arbitrary per-character mapping, because Unicode case tables are outside the model. Mappings that change a string's length, such as `'İ'.lower()`, are therefore not captured.
- The `interaction` argument is used only to send the reply (`__main__.py:26`, `31`), which is left out with `send_message`. The `namespace` argument of `get_timezones` is unused.

## Findings

| source | as written | input that shows it | evidently intended | confidence | as-written member | corrected member |
|---|---|---|---|---|---|---|
| __main__.py:25-28 | `reply` checks the argument against the catalog's keys, which are labels such as `Helsinki`. The autocomplete sends the choice's value, a zone identifier such as `Europe/Helsinki`, and that is what `ZoneInfo` needs. | Catalog of the single zone `Europe/Helsinki`. Typing `Helsinki` offers (`Helsinki`, `Europe/Helsinki`). Sending `Europe/Helsinki` gets "is not a valid timezone". Sending `Helsinki` passes the check, but `ZoneInfo('Helsinki')` finds no zone. | Check the argument against the catalog's zone identifiers, so every offered choice is accepted. | high; not executed | TimeCommand.ChosenZoneRejected | TimeCommand.ReplyByZoneAcceptsChoices |
