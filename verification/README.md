# Storefront decision rules, modelled in Dafny

A model of the small pieces of behaviour in a children's-uniform storefront
that are more than layout: the school-compliance search, the product page's
variant selection and add-to-cart request, the catalogue tile's quick-add,
the theme button's rotation, and the two form submit flows (newsletter
sign-up and contact form). Each React component becomes a Dafny module whose
state is an immutable record and whose event handlers are pure transition
functions. Timers, toasts, storage and the commerce API appear only as
explicit values and parameters.

| module | file | models |
|---|---|---|
| `Wrappers` | wrappers.dfy | `Option`, standing for `undefined`/`null` |
| `Seqs` | seqs.dfy | `find`/`indexOf` (`FindFirst`) and `filter` (`Filter`), with the lemma that `Filter` selects exactly the satisfying positions in order |
| `Text` | text.dfy | ASCII `toLowerCase` and `includes`, with `Includes` proved equal to "occurs at some position" |
| `SchoolFinder` | school_finder.dfy | the school table, the search, the five-result dropdown, the no-results notice, and the search/focus/select transitions with the stored selection |
| `Commerce` | commerce.dfy | product, variant, option and add-request records |
| `ProductCard` | product_card.dfy | first-variant quick-add and the product link |
| `ProductDetail` | product_detail.dfy | page load, default colour and size, first fitting variant, add-to-cart guard and payload |
| `ThemeSwitcher` | theme_switcher.dfy | the christmas → retro → modern rotation, the stored-value fallback, the persisted theme |
| `Forms` | forms.dfy | the outcome of pressing a submit button |
| `EmailAddress` | email_address.dfy | the "valid email address" a browser requires of a `type="email"` field (HTML Living Standard, section 4.10.5.1.5) |
| `EmailSignup` | email_signup.dfy | the browser's check of the `type="email"` field, the handler's '@' validator and the idle → sending → idle cycle |
| `Contact` | contact.dfy | the browser's `required`/`type="email"` checks, the handler's required-field validator, per-field edits and the send/reset cycle |

Behaviour worth knowing, all of it read from the component code:

- The ZIP comparison uses the search term as typed, and only name and city
  are lower-cased. Every ZIP in the built-in table is made of digits, so on
  that table the search as a whole still ignores case (`SchoolFinder.SearchIgnoresCase`).
- The product page's load effect returns early on a missing handle and never
  clears the spinner. A thrown lookup error keeps whatever product was shown
  before. A `null` result clears it. Default colour and size only overwrite
  the current selection when they are non-empty, so a selection survives a
  change to a product without that option.
- The stored theme is adopted without checking it is one of the three. The
  first toggle from an unknown value leads to christmas, because `indexOf`
  gives -1.
- The contact form's inputs stay enabled while a message is being sent, so
  an edit made in that second is wiped when the send completes
  (`Contact.EditWhileSendingIsLost`). The sign-up form disables its input.
- Both forms are plain `<form onSubmit>` elements, so the browser checks the
  fields before the handler runs. A press with an empty `required` field or a
  malformed `type="email"` value is stopped there (outcome `Blocked`). The
  contact handler's own check (name, email and message non-empty) therefore
  never fails for a press that reaches it, and the sign-up handler's '@' test
  only ever rejects an empty field, because its input is not `required`.
- The stored school record is the whole table entry, including city, state,
  ZIP and notes.
- On the product page a failed lookup keeps the previously shown product; on
  a first load that is none, so the page shows "Product not found".

## Model

| member | source | states |
|---|---|---|
| Text.ToLower | src/components/SchoolFinder.tsx:36-37 | lower-casing keeps the length, leaves every non-capital character alone, and turns every capital into its own lower-case letter |
| Text.ToLowerIdempotent | src/components/SchoolFinder.tsx:36-37 | lower-casing an already lower-cased term changes nothing |
| Text.Includes | src/components/SchoolFinder.tsx:36-38 | the empty needle is always found, and a found needle is never longer than the haystack |
| Text.IncludesIffOccurs | src/components/SchoolFinder.tsx:36-38 | the substring test is true exactly when the needle occurs at some position of the haystack |
| SchoolFinder.TableZipsAreDigits | src/components/SchoolFinder.tsx:8-17 | every ZIP in the built-in table consists of digits only |
| SchoolFinder.Matches | src/components/SchoolFinder.tsx:36-38 | a school matches iff the lower-cased term occurs in the lower-cased name or city, or the unmodified term occurs in the ZIP; the empty term matches every school |
| Seqs.Filter | src/components/SchoolFinder.tsx:35-39 | filtering never lengthens a sequence and keeps only elements that satisfy the predicate |
| SchoolFinder.FilterSchools | src/components/SchoolFinder.tsx:35-39 | the search result is never longer than the table and every school in it matches the term |
| SchoolFinder.FilterSchoolsExact | src/components/SchoolFinder.tsx:35-39 | the result is an order-preserving subsequence of the table: its positions increase, and a table position is kept exactly when its school matches |
| SchoolFinder.EmptyTermMatchesAll | src/components/SchoolFinder.tsx:35-39 | an empty term keeps every school, in order |
| SchoolFinder.NothingFoundIffNoneMatch | src/components/SchoolFinder.tsx:35-39 | the result is empty exactly when no school matches |
| SchoolFinder.DigitZipMatchIgnoresCase | src/components/SchoolFinder.tsx:38 | for a school whose ZIP is all digits, a term matches iff its lower-cased form matches |
| SchoolFinder.SearchIgnoresCase | src/components/SchoolFinder.tsx:35-39 | on the built-in table, searching for a term and for its lower-cased form give the same list |
| SchoolFinder.Capped | src/components/SchoolFinder.tsx:90 | the dropdown holds the first min(5, n) of the n results, in order |
| SchoolFinder.Mount | src/components/SchoolFinder.tsx:31-33 | the first render has an empty term, hidden results and no selection, keeps the storage, and satisfies the state invariant (results shown only for a non-empty term; a selected school is the stored one) |
| SchoolFinder.Search | src/components/SchoolFinder.tsx:49-52 | a search edit stores the new term, shows results iff it is non-empty, keeps the selection and storage, and keeps the invariant |
| SchoolFinder.Focus | src/components/SchoolFinder.tsx:81 | focusing re-opens the results iff a term is present and changes nothing else |
| SchoolFinder.Select | src/components/SchoolFinder.tsx:41-47 | selecting makes that school the selection, hides results, clears the term, stores exactly that record under "selectedSchool", leaves every other key alone, and establishes the invariant |
| SchoolFinder.Listed | src/components/SchoolFinder.tsx:88-90 | the dropdown lists at most five schools: the capped search result when results are shown, nothing otherwise |
| SchoolFinder.ListedAreFirstMatches | src/components/SchoolFinder.tsx:88-90 | each listed school is a matching table entry, listed in table order; no matching school before the last listed one is skipped, and with fewer than five listed every matching school is listed |
| SchoolFinder.ShowsNoResults | src/components/SchoolFinder.tsx:119 | the notice shows iff results are shown, the term is non-empty and no school matches, and then the dropdown lists nothing |
| SchoolFinder.NoResultsMeaning | src/components/SchoolFinder.tsx:119 | in a valid state the "No schools found" notice shows iff results are shown and no school matches, and never together with the dropdown |
| SchoolFinder.SearchThenRender | src/components/SchoolFinder.tsx:49-52 | after a search edit the dropdown is empty for an empty term and otherwise the capped result, and the notice shows iff the term is non-empty and matches nothing |
| ProductCard.FirstVariant | src/components/ProductCard.tsx:14 | quick-add uses the first listed variant, and there is one iff the product has variants |
| ProductCard.HandleAddToCart | src/components/ProductCard.tsx:17-28 | no request for a product without variants; otherwise one request for quantity 1 carrying the whole product and the first variant's id, title, price and options |
| ProductCard.LinkPath | src/components/ProductCard.tsx:38 | the tile links to "/product/" followed by exactly the product handle |
| Seqs.FindFirst | src/pages/ProductDetail.tsx:28-29 | the index found is the first position whose element satisfies the predicate; None means no element does |
| ProductDetail.DefaultValue | src/pages/ProductDetail.tsx:27-31 | the default is the first value of the first option with that name, and "" when that option is absent or lists no value |
| ProductDetail.Prefer | src/pages/ProductDetail.tsx:30-31 | a non-empty default replaces the selection and an empty one leaves it unchanged |
| ProductDetail.Load | src/pages/ProductDetail.tsx:19-41 | a missing or empty handle changes nothing; otherwise loading ends, a found product is shown with non-empty defaults replacing the selections, `null` clears the product and an error keeps the previous one |
| ProductDetail.ChooseColor | src/pages/ProductDetail.tsx:137 | the colour selector changes the colour selection and nothing else, and any variant then selected carries Color=that colour |
| ProductDetail.ChooseSize | src/pages/ProductDetail.tsx:155 | the size selector changes the size selection and nothing else, and any variant then selected carries Size=that size |
| ProductDetail.SelectedVariant | src/pages/ProductDetail.tsx:43-49 | a variant is selected iff some variant carries both Color=colour and Size=size, and it is the first such variant in list order |
| ProductDetail.AddEnabled | src/pages/ProductDetail.tsx:176 | the add button is enabled iff a product is shown and one of its variants fits the colour and size |
| Commerce.AddOne | src/pages/ProductDetail.tsx:54-61 | the request carries the given product, quantity 1, and the variant's id, title, price and options |
| ProductDetail.HandleAddToCart | src/pages/ProductDetail.tsx:51-61 | a request is emitted iff the button is enabled, and it is for quantity 1 of the shown product with the selected variant's id, title, price and options |
| ProductDetail.IncompleteVariantNeverSelected | src/pages/ProductDetail.tsx:46-47 | a variant lacking a Color entry or a Size entry is never the selected one |
| ProductDetail.NoFitAddsNothing | src/pages/ProductDetail.tsx:172-177 | with no product or no fitting variant the button is disabled and a click adds nothing |
| ProductDetail.DefaultAddAgreesWithQuickAdd | src/pages/ProductDetail.tsx:54-61 | when the first variant carries the default colour and size, adding from a freshly loaded page sends the same request as the tile's quick-add |
| ThemeSwitcher.IndexOf | src/components/ThemeSwitcher.tsx:16 | the index is the first position holding the theme, and -1 exactly when the theme is not listed |
| ThemeSwitcher.Next | src/components/ThemeSwitcher.tsx:14-17 | a toggle always yields one of the three themes, never the current value, and christmas from an unlisted value |
| ThemeSwitcher.NextCycles | src/components/ThemeSwitcher.tsx:15-17 | christmas goes to retro, retro to modern, modern to christmas |
| ThemeSwitcher.ThreeTogglesReturn | src/components/ThemeSwitcher.tsx:15-17 | three toggles from any of the three themes return to it |
| ThemeSwitcher.UnknownThemeRecovers | src/components/ThemeSwitcher.tsx:16-17 | from an unlisted value the first toggle gives christmas, and the cycle is entered from there |
| ThemeSwitcher.Initial | src/components/ThemeSwitcher.tsx:6 | the first render shows christmas and has not yet set the document attribute |
| ThemeSwitcher.Saved | src/components/ThemeSwitcher.tsx:9 | the loaded value is the stored string unless it is missing or empty, in which case it is christmas; it is never empty |
| ThemeSwitcher.Mount | src/components/ThemeSwitcher.tsx:8-12 | the mount effect puts the loaded value into the state and the document attribute and writes nothing |
| ThemeSwitcher.Toggle | src/components/ThemeSwitcher.tsx:14-21 | a toggle moves to the next theme, sets the attribute and the stored "theme" value to it, and leaves every other key alone |
| ThemeSwitcher.ReloadRestoresToggle | src/components/ThemeSwitcher.tsx:8-21 | reloading after a toggle shows the toggled theme |
| EmailAddress.IsValid | src/components/EmailSignup.tsx:50 | a valid address always contains an '@' |
| EmailAddress.IsValidMeaning | src/pages/Contact.tsx:86 | an address is valid iff some '@' splits it into a non-empty local part of permitted characters and dot-separated labels of 1 to 63 letters, digits or hyphens, each starting and ending with a letter or digit |
| EmailAddress.Examples | src/pages/Contact.tsx:84-91 | "abc" and "a@" are refused and "a@b" is accepted |
| EmailSignup.Acceptable | src/components/EmailSignup.tsx:14 | the handler accepts an address iff it contains an '@' somewhere (which already makes it non-empty) |
| EmailSignup.BrowserAccepts | src/components/EmailSignup.tsx:49-56 | the browser lets the form through for an empty field or a valid address, and a non-empty address it lets through always passes the handler's test |
| EmailSignup.Edit | src/components/EmailSignup.tsx:49-56 | typing changes the email only when not loading; the disabled input ignores it otherwise |
| EmailSignup.Handle | src/components/EmailSignup.tsx:11-19 | the handler rejects iff the email is empty or has no '@', a rejection changes nothing, and an acceptance starts loading with the email kept |
| EmailSignup.Submit | src/components/EmailSignup.tsx:48-60 | while loading a press is ignored; otherwise a malformed non-empty address is stopped by the browser, an empty field is rejected by the handler, and a valid address starts loading with the email kept |
| EmailSignup.SubmitExamples | src/components/EmailSignup.tsx:14 | "a@" passes the handler's test but is stopped by the browser, and an empty field is rejected by the handler |
| EmailSignup.Finish | src/components/EmailSignup.tsx:22-35 | completion clears the email and ends loading |
| EmailSignup.AcceptedSubmissionLifecycle | src/components/EmailSignup.tsx:11-60 | for a valid address the press is accepted, then presses and edits do nothing until completion returns the form to empty and idle |
| Contact.Set | src/pages/Contact.tsx:76 | replacing one field sets it and keeps the other three |
| Contact.Edit | src/pages/Contact.tsx:71-114 | editing one field sets that field, keeps the other three and does not touch loading |
| Contact.HasRequired | src/pages/Contact.tsx:22 | the handler's check holds iff every field other than the subject is non-empty |
| Contact.BrowserAccepts | src/pages/Contact.tsx:72-113 | the browser lets the form through only with name and message filled and a valid address in the email field, which implies the handler's check |
| Contact.Handle | src/pages/Contact.tsx:19-27 | the handler rejects iff name, email or message is empty, a rejection changes nothing, and an acceptance starts sending with the fields kept |
| Contact.Submit | src/pages/Contact.tsx:70-125 | while sending a press is ignored; otherwise it is stopped by the browser unless the browser's checks pass, in which case it is accepted and starts sending with the fields kept; the handler never rejects a press |
| Contact.Finish | src/pages/Contact.tsx:30-37 | completion empties all four fields and ends sending |
| Contact.NoEmailFormatCheck | src/pages/Contact.tsx:22 | the handler alone accepts any non-empty name, email and message with an empty subject, whatever the email looks like |
| Contact.MalformedEmailBlocked | src/pages/Contact.tsx:84-91 | a form with email "abc", which the handler alone would accept, is stopped by the browser |
| Contact.EditWhileSendingIsLost | src/pages/Contact.tsx:30-37 | an edit made during sending is undone by completion |

## Left out

- The cart store's merging, quantity updates and totals: that module is not part of this model, so only the add request handed to it is modelled.
- The browser check assumes the project's `Input` and `Textarea` wrappers pass `type` and `required` through to the native elements; those wrapper files are not part of this model.
- The browser's value sanitisation for `type="email"` (stripping line breaks and surrounding spaces) and internationalised domain names are not modelled; `EmailAddress.IsValid` works on the value as stored.
- Fetching products by handle: the lookup's outcome (found, `null`, thrown error) is a parameter of `ProductDetail.Load`.
- Toasts, confetti and the one-second timers: each timer's callback is an explicit `Finish` transition.
- Browser storage: a map from key to the last value written; the JSON encoding of the stored school is not modelled.
- The `onSchoolSelect` callback: it is code supplied by the caller, which this model does not see.
- The compact "Compliant for …" view and the "Shop Compliant Pants" link of the school finder: presentation only.
- Price formatting with `parseFloat(...).toFixed(2)`: floating point display.
- Product images, description and price range: only read for display.
- Text.ToLower: folds only ASCII letters, not the full Unicode case mapping of `toLowerCase`.
- The carousels, logo loop, snow effect, header, banner, FAQ, returns, size guide and home page: presentation or library wrappers with no rules to state.
