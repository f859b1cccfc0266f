# Activity board client: a verified model of its rendering and action logic

The activity board client is a browser script. It fetches the school's activities, renders one card per activity, adds each activity to a select control, and lets a user sign up for an activity or remove a participant. This project models the client's deterministic core in Dafny:

- **HtmlEscape** (`html_escape.dfy`): `escapeHtml`, the character-wise encoder that every data field goes through before it becomes markup. Its partner is `Unescape`, the decoding of the five entities that a browser applies.
- **Decimal** (`decimal.dfy`): the decimal text a template literal gives the integer spots-left count. Its partner is `ParseInt`, which reads the text back.
- **Render** (`render.dfy`): the pure part of `fetchActivities`. An activity is `{name, description, schedule, maxParticipants, participants}`. A card's inner HTML is the concatenation of its template fragments. A fragment is literal markup, an escaped field, or the spots-left number. `FetchActivities` is the loop that clears the board and appends one card and one select option per entry.
- **Handlers** (`handlers.dfy`): the outcome logic of the signup submit handler and the remove-button click handler. Each run is one step. Its inputs are the form or button values, the confirmation answer and how the request ended. Its outputs are the prompt, the request sent, the status message and its kind, the form reset and the number of re-fetches. `encodeURIComponent` is the function parameter `enc`, about which nothing is assumed unless a lemma says so.

## Model

| member | source | states |
|---|---|---|
| `HtmlEscape.EscapeChar` | src/static/app.js:9-10 | A character changes exactly when it is one of `& < > " '`. A replacement begins with `&`, and the rest of it holds no special character. |
| `HtmlEscape.Escape` | src/static/app.js:8-11 | The escaped text never holds a raw `<`, `>`, `"` or `'`, and it is never shorter than its input. |
| `HtmlEscape.Unescape` | src/static/app.js:10 | Decoding the five entities never lengthens a text. |
| `HtmlEscape.UnescapeEscape` | src/static/app.js:9-10 | Decoding undoes escaping: every special character maps to its own entity, and every other character maps to itself. |
| `HtmlEscape.UnescapeEscapeChar` | src/static/app.js:9 | Decoding one escaped character in front of any text gives that character back. |
| `HtmlEscape.EscapeAppend` | src/static/app.js:10 | Escaping distributes over concatenation: `Escape(a + b) == Escape(a) + Escape(b)`. |
| `HtmlEscape.EscapeFixedIffSafe` | src/static/app.js:10 | A text is returned unchanged if and only if it holds none of the five special characters. |
| `HtmlEscape.EscapeInjective` | src/static/app.js:8-11 | Distinct texts are escaped to distinct markup. |
| `Decimal.NatText` | src/static/app.js:53 | The digits of a natural number: at least one, all decimal digits, no leading zero. |
| `Decimal.IntText` | src/static/app.js:53 | The text of an integer is a numeral. Its only non-digit is a leading minus sign, present for negative numbers only. |
| `Decimal.IntTextRoundTrip` | src/static/app.js:53 | The text shown for a number reads back as that number. |
| `Render.FragHtml` | src/static/app.js:40-53 | An escaped field or an interpolated number never adds a markup delimiter to the HTML. |
| `Render.Items` | src/static/app.js:36-47 | The roster's items, one fixed-width item per participant. |
| `Render.SpotsShown` | src/static/app.js:32-53 | The availability line of every card shows `max_participants - participants.length`, as a numeral that reads back as that value. |
| `Render.ItemsInRosterOrder` | src/static/app.js:36-46 | The `i`-th item of the joined roster is the `i`-th participant's item. |
| `Render.CardItem` | src/static/app.js:36-58 | A non-empty roster renders the participants list, and then, in roster order, one `<li>` per participant. The escaped participant is in the span and in `data-email`. The escaped activity name is in `data-activity`. |
| `Render.ItemLayout` | src/static/app.js:40-44 | Where the participant and the activity name sit inside an item. |
| `Render.ItemsCount` | src/static/app.js:36-47 | The joined items hold exactly one `<li>` per participant, no list opening and no placeholder. |
| `Render.ListTagCounts` | src/static/app.js:36-60 | A card holds exactly `participants.length` `<li>` openings. It holds one participants list and no placeholder when the roster is non-empty, and the placeholder and no list when it is empty. |
| `Render.DelimitersFromTemplate` | src/static/app.js:49-62 | Every `<`, `>`, `"` and `'` of the rendered HTML comes from the template, none from the data. |
| `Render.SameShapeSameTemplate` | src/static/app.js:49-62 | Fragment sequences that differ only in their data have the same template text. |
| `Render.ItemsSameShape` | src/static/app.js:36-47 | Rosters of equal length render items that differ only in their data. |
| `Render.CardShape` | src/static/app.js:49-62 | The markup of a card depends on the length of its roster alone. |
| `Render.CardMarkupIndependentOfData` | src/static/app.js:40-62 | Injection safety: two cards with rosters of equal length hold the same number of `<`, `>`, `"` and `'`, whatever their name, description, schedule, capacity and participants contain. |
| `Render.FieldDisplayedLiterally` | src/static/app.js:40-52 | A rendered field decodes back to the field's text, so it is displayed literally. |
| `Render.FetchActivities` | src/static/app.js:14-75 | When the request or its JSON parsing fails, the list shows the error paragraph and the select keeps its options. Otherwise the select holds the placeholder followed by one option per entry name reached, in entry order. When every entry has a roster, there is one card per entry, in entry order, each rendered from its entry. When an entry without a roster (an error reply's object body, a `null` body) throws after the reset, the list shows the error paragraph and the select keeps only the options appended before it. |
| `Handlers.Signup` | src/static/app.js:124-164 | The POST goes to `/activities/enc(activity)/signup?email=enc(email)`. A successful reply gives a success message equal to `result.message`, a form reset and exactly one re-fetch. A failed reply gives an error of `result.detail`, or "An error occurred" when that is absent or empty. A thrown error gives "Failed to sign up. Please try again.". Neither failure resets the form or re-fetches. |
| `Handlers.Unregister` | src/static/app.js:79-121 | A click off a remove button, an empty or missing email or activity, or a declined confirmation sends nothing and leaves the message and the list alone. The prompt is asked once both values are present. Otherwise the DELETE goes to `/activities/enc(activity)/participants?email=enc(email)`. Success gives `result.message` and one re-fetch. Failure gives `result.detail`, or "Failed to unregister", or the failure text of a thrown error, with no re-fetch. The form is never reset. |
| `Handlers.RemoveButtonTargetsParticipant` | src/static/app.js:36-106 | Confirming the click on the `i`-th participant's rendered remove button sends the DELETE for exactly that participant and that activity, as read back through the five entities. The button of an empty participant or activity name does nothing. |
| `Handlers.SplitUrl` | src/static/app.js:93-132 | A request URL under `/activities/` splits uniquely into the encoded activity and the rest when the encoding holds no `/`. |
| `Handlers.SignupUrlInjective` | src/static/app.js:132 | With an injective encoder that escapes `/`, a signup URL determines its activity and email. |
| `Handlers.UnregisterUrlInjective` | src/static/app.js:93-95 | With an injective encoder that escapes `/`, an unregistration URL determines its activity and email. |
| `Handlers.SignupIsNotUnregisterUrl` | src/static/app.js:93-132 | A signup URL is never an unregistration URL when the encoder escapes `/`. |

## Left out

- DOM manipulation (`getElementById`, `innerHTML`, `appendChild`, `classList`, `closest`, `dataset`): the model produces the strings and sequences these would hold. The card's `activity-card` class is a constant and is not modelled.
- `fetch`, `response.json()`, the awaits and the race between overlapping loads: a request's ending is an input (`Reply`, `LoadReply`). A re-fetch is counted in `Effects.refetches` and its result is `FetchActivities` again.
- The auto-hide timers and `console.error`. The signup handler schedules no hide after a thrown error, while the unregister handler does; the model records neither.
- The internals of `encodeURIComponent` (section 19.2.6 of ECMA-262): `enc` is a function parameter. Strings holding lone surrogates are not modelled, because Dafny strings hold Unicode scalar values only. On them the source's `encodeURIComponent` throws a `URIError` before any request is sent, and the handler shows its failure text.
- The whitespace and indentation of the card's template literal: a card is the concatenation of its fragments.
- The enumeration order of `Object.entries`, which puts integer-like keys first: the entries are taken in the order given.
- `Render.FetchActivities`: the status code of the activities reply is never inspected, and the model follows that. An entry whose roster is missing is modelled only as the `BrokenAfter` failure, not by its contents. Such an entry is the value of an error reply's `detail` key, or a record without `participants`.
- A non-string `description`, `schedule` or `detail` (`String(text)` of other values): all are strings or absent.
- `Decimal.IntText`: matches JavaScript's text of `spotsLeft` only for magnitudes up to 2^53. Above that, the subtraction at src/static/app.js:32 rounds to a double, and `Number::toString` prints the shortest digits that read back as that double. From 10^21 it prints exponent notation. Neither is modelled, and neither are non-integer capacities. `Render.SpotsLeft` is the exact integer difference.
- `HtmlEscape.Unescape`: decodes only the five entities the escaper emits. On the escaper's output every `&` starts one of them, so no other character reference is decoded. The browser's other rewriting of the markup is not modelled; see the next line.
- `Handlers.RemoveButtonTargetsParticipant`: models the browser's decoding of the `data-email` and `data-activity` attributes as entity decoding alone. The HTML parser behind `innerHTML` also turns CR and CRLF into LF and replaces NUL in an attribute value with U+FFFD. For a participant or activity name holding CR or NUL, the source's DELETE therefore names the normalized string, which may be another participant. The source agrees with the lemma only for strings without CR and NUL.
- `Render.ListTagCounts`: counts the template's `<li>` fragments, not the occurrences of the text `<li>` in the HTML string. `Render.CardMarkupIndependentOfData` covers the string level: no data adds a `<`.
- tests/test_app.py exercises the server (`src/app.py`), which is not part of this model.
