# Dosa Toppings storefront script — a Dafny model

This project models the core of `script/main.js`, the single script of the Dosa
Toppings storefront page. It proves properties of the model with Dafny. The
modelled pieces are:

- **HTML escaping (`escapeHtml`).** Modelled in `escape.dfy`, together with a
  decoder for the four entities, so that the round trip can be stated.
- **Catalog data.** `catalog.dfy` holds the catalog of twenty products in four
  blocks of five, the exact-match category filter, and the side table of card
  bullets with its generic fallback.
- **Sort engine.** `sorting.dfy` stands for `Array.prototype.sort`, which
  section 23.1.3.30 of ECMA-262 (2023) requires to be stable. It is an
  in-place insertion sort on an array (`SortInPlace`). That method is proved
  equal to the functional `StableSort`, which is proved sorted, stable and a
  permutation. `StableSortUnique` proves that any sorted and stable
  rearrangement equals `StableSort`, so the choice of algorithm does not
  affect any property stated here.
- **Sort orders.** `comparators.dfy` holds the five comparators the sort
  selector chooses between, each proved consistent. `localeCompare` is
  modelled as ordinal string comparison.
- **Filter and sort (`applyFilters`).** `filters.dfy` copies the catalog,
  filters it, and sorts the copy in place.
- **Product grid (`renderProducts`).** `render.dfy` models the grid as a
  class whose children are abstract grid items. Each card keeps the values
  its markup shows, and `Shown` gives the escaped text that enters the markup.
- **Card flip (click and keydown handlers).** `flip.dfy` models each card as
  an object with an `active` flag and the back face's `aria-hidden` state.
- **Preloader delay (`onWindowLoadEnforcePreloader`).** `preloader.dfy` holds
  the delay arithmetic.
- **Section tracker (`setupSectionObserver`).** `sections.dfy` models the
  id-to-link map and the callback's updates of `active` links and `visible`
  fade-in elements.

The clock is not modelled directly: its readings (`now`, `start`) are
parameters. The observer's geometry is replaced by the entries it delivers,
and the viewport width and pressed key are parameters of the handlers.

Notes on the code:

- **Highlight clearing.** The callback clears `active` only from the links
  recorded in `idToNav` (main.js:253), not from every navigation link. The
  "at most one active link" property is therefore proved for the mapped
  links, and links outside the map are proved to be left as they were. A link outside the map is one whose
  href does not start with `#`, or one whose target a later link
  overwrote.
- **Empty section id.** An empty section id never highlights anything, even
  when a link with href `#` put the empty string in the map (main.js:254).

## Model

| member | source | states |
|---|---|---|
| Escape.EscapeHtml | script/main.js:82-86 | the escaped text contains no `<`, `>` or `"`, every `&` in it opens one of the four entities, and it is never shorter than the input |
| Escape.EscapeChar | script/main.js:84 | the replacement of one character; definition, characterised by Escape.EscapeTable |
| Escape.EscapeTable | script/main.js:83-85 | `&`, `<`, `>`, `"` become `&amp;`, `&lt;`, `&gt;`, `&quot;`; every other character, the apostrophe included, is copied unchanged |
| Escape.EscapeAppend | script/main.js:83 | the global replace works character by character: escaping a concatenation concatenates the escapes |
| Escape.EscapeIdentity | script/main.js:82-86 | text without `&`, `<`, `>`, `"` is returned unchanged |
| Escape.EscapeRoundTrip | script/main.js:82-86 | decoding the four entities in the escaped text gives back the original text, for every input |
| Catalog.FeaturesFor | script/main.js:103-134 | every card has exactly three bullets: the side-table entry for ids 1 to 20, which differs from the generic three, and the generic three for any other id |
| Catalog.FilterCategory | script/main.js:221 | the filter keeps no more records than it is given, and every kept record has exactly the requested category and comes from the input |
| Catalog.FilterMembership | script/main.js:221 | a record is kept exactly when it is in the list and its category equals the filter value |
| Catalog.FilterKeepsOrder | script/main.js:221 | filtering a list increasing by id leaves it increasing by id |
| Catalog.FilterAppend | script/main.js:221 | filtering distributes over concatenation |
| Catalog.CatalogShape | script/main.js:49-77 | the catalog has twenty records with ids 1 to 20 in order, each id has a side-table entry |
| Catalog.CategoryBlocks | script/main.js:49-77 | each of Traditional, Health, Fusion, Kids selects exactly its block of five, in declaration order; any other value, differently cased ones included, selects nothing |
| Sorting.Insert | script/main.js:224-228 | one insertion step of the sort, one element longer than its input; characterised by Sorting.InsertSorted, Sorting.InsertPermutes, Sorting.InsertTied and Sorting.InsertAtPoint, and run in place by Sorting.InsertAt |
| Sorting.StableSort | script/main.js:224-228 | the sort as a function of its input, of the input's length; characterised by Sorting.StableSortSorted, Sorting.StableSortStable, Sorting.StableSortPermutes and Sorting.StableSortUnique |
| Sorting.SortedAppend | script/main.js:224-228 | two ordered lists, each element of the first ranked no later than each of the second, join into an ordered list |
| Sorting.StableSortSorted | script/main.js:224-228 | the sort result is ordered by the comparator when the comparator is consistent |
| Sorting.StableSortStable | script/main.js:224-228 | the sort keeps the relative order of elements the comparator ranks equal (stability, required of `Array.prototype.sort`) |
| Sorting.StableSortPermutes | script/main.js:224-228 | the sort result is a permutation of its input |
| Sorting.StableSortUnique | script/main.js:224-228 | any ordered and stable rearrangement of a list equals the stable sort of it: the sort result does not depend on the algorithm |
| Sorting.InsertAt | script/main.js:224-228 | one step of the in-place sort: the prefix up to `i` becomes the insertion of `a[i]` into the sorted prefix before it, the rest of the array is unchanged |
| Sorting.SortInPlace | script/main.js:224-228 | sorting the array in place leaves exactly the stable sort of its old contents |
| Sorting.TiedReverse | script/main.js:226-227 | reversing a list reverses each class of equally ranked elements |
| Sorting.TiedPositions | script/main.js:224-228 | two equally ranked elements appear in their class in the order they have in the list |
| Comparators.CompareStrings | script/main.js:224-225 | the string comparison returns -1, 0 or 1, and 0 exactly for equal strings |
| Comparators.CompareStringsFlip | script/main.js:224-225 | swapping the operands of the string comparison flips its sign |
| Comparators.CompareStringsTrans | script/main.js:224-225 | the string order is transitive |
| Comparators.Cmp | script/main.js:224-228 | for the name orders two records tie exactly when their names are equal, for the price orders exactly when their prices are equal, for `category` exactly when their categories are equal; going up in price the cheaper record comes first, going down the dearer one |
| Comparators.KeyComparator | script/main.js:224-228 | the comparator handed to the sort for a key; definition, characterised by Comparators.ComparatorConsistent |
| Comparators.ComparatorConsistent | script/main.js:224-228 | each of the five comparators flips sign with its operands and is transitive, so the sort result is well defined |
| Filters.ParseSortKey | script/main.js:223-228 | a selector value selects a sort order exactly when it is that order's name (`name-asc`, `name-desc`, `price-asc`, `price-desc`, `category`); any other value, the empty one included, selects none |
| Filters.View | script/main.js:217-228 | the displayed list for a category and a sort value, as long as the filtered list; characterised by Filters.ViewPermutes, Filters.ViewOrdered and Filters.TiesKeepCatalogOrder |
| Filters.FilterAndSort | script/main.js:217-228 | the list built from a copy of the catalog, filtered and sorted in place, is the view for the selector values, a missing control counting as `all` and as no sort |
| Filters.Filtered | script/main.js:218-221 | the catalog copy filtered by the category value, unfiltered for `all` or the empty value; definition, characterised by Filters.FilteredContents |
| Filters.FilteredContents | script/main.js:218-221 | `all` or an empty value yields all twenty records; any other value yields exactly the records of that category; either way in catalog order |
| Filters.ViewPermutes | script/main.js:223-228 | the displayed list is a permutation of the filtered list |
| Filters.ViewOrdered | script/main.js:223-228 | `price-asc` is non-decreasing and `price-desc` non-increasing in price, `name-asc` and `name-desc` are ordered by name up and down, `category` is ordered by category name, any other value keeps the filtered order |
| Filters.CategorySortKeepsCatalogOrder | script/main.js:228 | sorting by category keeps each category's records in catalog order |
| Filters.TiesKeepCatalogOrder | script/main.js:223-228 | under every sort order, records ranked equal (same price, name or category) stay in catalog order |
| Filters.PriceOrdersReverse | script/main.js:226-227 | for a list without equal prices, the price-down sort is exactly the reverse of the price-up sort |
| Filters.CategoryPriceOrdersReverse | script/main.js:49-77 | within any single category the price-down list is exactly the reverse of the price-up list |
| Filters.BlocksDistinctPrices | script/main.js:49-77 | no two records of one category share a price |
| Filters.HealthByName | script/main.js:57-62 | Health sorted by name is exactly the five Health records, with names Flax Seed, Horse Gram, Moringa, Protein Mix, Sesame in that order |
| Filters.HealthByPrice | script/main.js:57-62 | Health sorted by price up is Sesame (110), Horse Gram (130), Flax Seed (140), Moringa (145), Protein Mix (160), and by price down the reverse |
| Filters.AllByCategory | script/main.js:228 | with every category shown, sorting by category gives the Fusion block, then Health, Kids and Traditional, each block in catalog order |
| Render.CardOf | script/main.js:126-137 | a card carries its record's id, never an empty image (the record's own when it has one) and exactly three bullets; fully characterised by Render.CardContents |
| Render.Rendered | script/main.js:92-98 | the grid's children for a list are never empty, and number one per record for a non-empty list; characterised by Render.RenderedShape |
| Render.CardContents | script/main.js:126-137 | a card shows its record's id, name, category, price and description, its image or `assets/sample.png` when it has none, and the three bullets for its id |
| Render.Shown | script/main.js:136-165 | the six text values of a card as they enter the markup, each escaped; definition, characterised by Render.ShownText |
| Render.ShownText | script/main.js:136-167 | the six text values of a card enter the markup escaped: none holds `<`, `>` or `"`, and each unescapes to the record's text or bullet |
| Render.Cards | script/main.js:126-172 | one card per record of the list, as many cards as records; characterised by Render.CardsInOrder |
| Render.CardsInOrder | script/main.js:126-172 | one card per record, in list order, and nothing else |
| Render.RenderedShape | script/main.js:95-98 | a missing or empty list renders exactly one placeholder and zero cards; N records render N cards with the records' ids in order and no placeholder |
| Render.InitialGrid | script/main.js:391 | the first render shows twenty cards with ids 1 to 20, each with its side-table entry |
| Render.ProductGrid.Render | script/main.js:92-172 | clearing the grid and appending the cards one by one leaves exactly the rendered items for the list |
| Render.ApplyFilters | script/main.js:217-230 | after a selector change the grid shows the rendering of the filtered and sorted view; without a grid nothing changes |
| Render.UnknownCategoryShowsPlaceholder | script/main.js:95-98 | a category no record has shows the placeholder alone |
| Flip.FlipCard.constructor | script/main.js:196-197 | a new card is not flipped and its back face is hidden |
| Flip.FlipCard.Toggle | script/main.js:179-181 | toggling flips `active` and sets the back face's hidden state to its opposite |
| Flip.FlipCard.OnClick | script/main.js:177-184 | a click toggles the card only when the viewport is at most 992 pixels wide |
| Flip.FlipCard.OnKeyDown | script/main.js:186-194 | Enter or Space toggles the card at any width; other keys change nothing |
| Flip.FlipCard.RevertAsWritten | script/main.js:182 | the revert timer removes `active` and leaves the back face's hidden state as it was |
| Flip.FlipCard.Revert | script/main.js:182 | corrected revert: unflips the card and hides the back face |
| Flip.ActiveAfter | script/main.js:177-194 | a card ends flipped only if a flipping event (a narrow-screen click, Enter or Space) came after the last revert timer |
| Flip.FlipCard.Handle | script/main.js:177-194 | with the corrected revert, a revert timer leaves the card unflipped with its back face hidden, a flipping event toggles the card and keeps the back face hidden exactly when unflipped, any other event changes nothing |
| Flip.Replay | script/main.js:177-197 | with the corrected revert, any sequence of events leaves the card flipped exactly as `ActiveAfter` says, its back face hidden exactly when unflipped |
| Flip.RevertExposesBack | script/main.js:182-192 | with the revert as written, Enter then the timer leaves an unflipped card whose back face is not hidden |
| Flip.FlipThenRevert | script/main.js:179-192 | a flip toggles the state, and a revert timer after it leaves the card unflipped |
| Flip.DoubleFlip | script/main.js:177-194 | two flipping events cancel out |
| Flip.NonFlipIgnored | script/main.js:178-187 | a wide-screen click or another key changes nothing |
| Preloader.Remaining | script/main.js:403-406 | the delay lies in [0, 3000]; it is 0 once 3000 ms have elapsed, elapsed + delay = 3000 before that, and 3000 when no time has elapsed |
| Preloader.InitNotEarly | script/main.js:403-410 | for a clock that does not run backwards, initialisation never starts before 3000 ms after the start, and starts exactly then when the load came early |
| Preloader.RemainingShrinks | script/main.js:403-406 | a later load never waits longer, and until the floor it waits exactly as much less as it is later |
| Sections.LinkMap | script/main.js:241-245 | every link the id-to-link map names exists; characterised by Sections.LinkMapSpec |
| Sections.BuildIdToNav | script/main.js:241-245 | the map built by the loop over the links is `LinkMap` of their hrefs |
| Sections.AnchorId | script/main.js:243-244 | the section id a link's href names, if it starts with `#`; definition, characterised by Sections.AnchorIdSpec |
| Sections.AnchorIdSpec | script/main.js:244 | a link points at a section id exactly when its href is `#` followed by that id |
| Sections.LinkMapSpec | script/main.js:241-245 | an id is a key exactly when some href is `#` plus the id, and then it maps to the last such link |
| Sections.Step | script/main.js:250-256 | one entry never changes links outside the map and never removes a `visible` mark; characterised by Sections.StepSpec |
| Sections.Highlight | script/main.js:254 | the link an intersecting section highlights: its mapped link, none for an empty or unmapped id; definition, characterised by Sections.StepSpec |
| Sections.StepSpec | script/main.js:250-256 | an intersecting entry leaves at most one mapped link active: its section's link, or none for an empty or unmapped id; unmapped links keep their state; `visible` gains the section's fade-in elements; a non-intersecting entry changes nothing |
| Sections.AfterEntries | script/main.js:250-257 | the tracker state after the entries, handled in order; definition, characterised by Sections.AfterEntriesSpec |
| Sections.AfterEntriesSpec | script/main.js:249-258 | after any entries, the active mapped links are those of the last intersecting entry (at most one), unmapped links are unchanged, and `visible` is the old set plus the fade-in elements of every intersecting entry |
| Sections.SectionTracker.constructor | script/main.js:241-245 | the tracker's map is `LinkMap` of the links' hrefs; nothing is visible yet |
| Sections.SectionTracker.OnEntries | script/main.js:249-258 | handling the entries one by one leaves exactly the state `AfterEntries` gives |

## Left out

- **Markup.** HTML strings, `innerHTML`, `createElement`, `querySelector` and
  CSS class names other than `active` and `visible` are not modelled. Cards
  are abstract records, and the escaped values are what would be
  interpolated. Only the six text values (name, category, description and
  the three bullets) are escaped; the id (main.js:140), the image path
  (main.js:143-144) and the price (main.js:145, 155, 165) enter the markup
  unescaped, and `Render.Shown` and `Render.ShownText` do not cover them.
- **Timers and events.** `setTimeout` and the event-listener plumbing are
  not modelled. This covers the staggered entrance animation, the 600 ms
  preloader removal, the resize debounce, and the `DOMContentLoaded` and
  load listeners. The six-second revert is modelled only as an event in the
  card's event sequence, not as a timed callback. Several pending revert
  timers are not modelled.
- **Clock.** `Date.now` is a parameter.
- **Preloader attributes.** `initAfterLoad`'s `loaded` class and the
  preloader's `aria-hidden` are not modelled.
- **Observer geometry.** The `IntersectionObserver` threshold and root
  margin, `ResizeObserver`, `syncNavHeight` and the smooth-anchor scroll
  offset are not modelled. They depend on browser layout and floating-point
  measurements.
- **Fade-in setup.** The marking of section descendants with `fade-in-up`
  is not modelled. The entries carry the fade-in elements of their section
  directly.
- **Footer and go-to-top.** `footerAndGoTop` (touch detection and the
  button's hover show/hide) is UI plumbing and is not modelled.
- **`localeCompare`.** Locale-sensitive comparison (ECMA-402) is replaced by
  ordinal comparison on characters. The catalog's names and categories are
  plain ASCII.
- **`String(str)` coercion.** The escaper's coercion of non-string
  arguments is not modelled. Every call site passes strings.
- **`e.preventDefault()`.** The keydown handler's `preventDefault` call has
  no state to model.
- **Inherited object keys.** Section ids that name inherited properties of a
  plain JavaScript object, such as `toString`, are not modelled. The map is a
  Dafny map holding only the links' targets.
- **Observer unavailable.** `setupSectionObserver` wraps its work in
  `try`/`catch` (main.js:240, 268-270). When `IntersectionObserver` is
  missing or throws, no link is highlighted and nothing is marked visible,
  and the only trace is a console warning. The model covers that case only
  as a tracker to which no entries ever arrive; the warning is not
  modelled.
- **Sections.SectionTracker.OnEntries.** Only the links carrying `active`
  are modelled, as a set of link positions. The "single active link"
  promise is proved for the links of the map, not for every navigation
  link, because the code clears only those.

## Findings

| source | as written | input that shows it | evidently intended | confidence | as-written member | corrected member |
|---|---|---|---|---|---|---|
| script/main.js:182-192 | the six-second revert removes `active` but leaves the back face's `aria-hidden` at `false` | focus a card, press Enter, wait six seconds: the card shows its front while its back face is exposed to assistive technology | the revert also sets the back face's `aria-hidden` to `true`, as the toggles keep it equal to "not flipped" | medium, not executed | Flip.RevertExposesBack | Flip.Replay |
