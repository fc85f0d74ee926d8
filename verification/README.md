# Delta Computers page script: a verified model

The site's `script.js` wires a marketing page to the browser. It has nine
independent handlers. This project models the ones whose rules can be
stated once the DOM is replaced by plain state:

- **Contact form → WhatsApp** (`ContactForm`, with `JsStrings` and `Uri`).
  Both fields are trimmed. A blank field shows the error notice. Otherwise
  the fields fill the message template
  `Hola Viral Informática! \n\nMi nombre es *<name>*.\n\n<message>`, and
  `https://wa.me/5492392488913?text=` followed by `encodeURIComponent` of
  that text is opened. Strings are ECMAScript strings: sequences of UTF-16
  code units, so a lone surrogate can occur. `encodeURIComponent` and
  `decodeURIComponent` follow section 19.2.6 of ECMA-262. They use UTF-8 as
  in RFC 3629 and escapes as in section 2.1 of RFC 3986.
  `String.prototype.trim` strips the language's WhiteSpace and
  LineTerminator code points.
- **Header scroll effect** (`HeaderScroll`): the class `scrolled` holds
  exactly while `scrollY > 40`. It is set at load and on every scroll.
- **Active nav link** (`ActiveNav`): an intersecting section `id` makes
  exactly the links with `href="#id"` active.
- **Mobile menu** (`MobileMenu`): a class holding the menu's `open` class and
  the four attributes that must follow it.
- **One-shot observers** (`OneShot`): the reveal and counter observers act on
  an element once and then stop observing it.
- **Counter animation** (`CounterAnimation`): the frame callback, its end
  clamp to the exact target, and the end of the frame chain.

## Model

| member | source | states |
|---|---|---|
| `JsStrings.Trim` | script.js:201-202 | the trimmed field is a slice of the input with only white space around it; it neither starts nor ends with white space; it is empty exactly when the field is all white space |
| `JsStrings.TrimIdempotent` | script.js:201-202 | trimming a trimmed field changes nothing |
| `JsStrings.TrimWellFormed` | script.js:201-202 | trimming neither adds nor removes a lone surrogate |
| `Uri.EncodeDefinedIff` | script.js:210 | `encodeURIComponent` returns a string exactly when its input has no lone surrogate; otherwise it throws URIError |
| `Uri.EncodeEscaped` | script.js:210 | the encoded text contains only letters, digits, `- _ . ! ~ * ' ( )` and `%HH` triples with upper-case hex digits |
| `Uri.EncodeMinimal` | script.js:210 | letters, digits and `- _ . ! ~ * ' ( )` are left as they are: no `%HH` escape in the encoded text stands for one of them, so every other character, and only those, is escaped |
| `Uri.DecodeEncode` | script.js:210 | `decodeURIComponent(encodeURIComponent(s)) == s` for every well-formed `s`, including multi-byte and surrogate-pair code points |
| `Uri.EncodeURIComponent` | script.js:210 | the model of `encodeURIComponent`: a successful result is at least as long as the input and at most nine times as long; it is characterised by `EncodeDefinedIff` (when it is defined), `EncodeMinimal` (which characters are escaped) and `DecodeEncode` (what the escapes stand for) |
| `Uri.DecodeURIComponent` | script.js:210 | the model's own inverse of the encoder, with no counterpart in the script; it exists to state the round trip, and a successful result is never longer than its input |
| `Uri.Utf8RoundTrip` | script.js:210 | the UTF-8 octets of a scalar value decode back to it, and the first octet gives the total length of the sequence, itself included |
| `ContactForm.Template` | script.js:209 | the filled template: the fixed greeting, then the name verbatim, then `*.\n\n`, then the message verbatim at the end |
| `ContactForm.Submit` | script.js:198-215 | the submit handler: a URL is opened exactly when the success notice is shown, the form is reset exactly then, and every opened URL starts with `https://wa.me/5492392488913?text=`; characterised by `SubmitRejectsBlank` and `SubmitOpensWhatsApp` |
| `ContactForm.SubmitRejectsBlank` | script.js:201-207 | the error notice is shown exactly when a field is missing, empty or all white space; then no URL is opened and the form is not reset |
| `ContactForm.TemplateWellFormed` | script.js:209 | the filled template is well formed exactly when both trimmed fields are |
| `ContactForm.SubmitOpensWhatsApp` | script.js:209-214 | with both fields filled in and well formed, the opened URL is `https://wa.me/5492392488913?text=` plus an escaped text, in which only characters other than letters, digits and `- _ . ! ~ * ' ( )` are escaped, that decodes to the template with the trimmed name and message; the success notice is shown and the form is reset; with a lone surrogate the handler throws before opening anything, showing nothing and not resetting |
| `HeaderScroll.Header.constructor` | script.js:12-16 | at load, `scrolled` is present iff `scrollY > 40`; the header's other classes are those of the markup |
| `HeaderScroll.Header.OnScroll` | script.js:12-15 | after any scroll event, `scrolled` is present iff `scrollY > 40`; no other class changes |
| `ActiveNav.LastIntersecting` | script.js:27-29 | a batch has no result exactly when none of its entries intersects; otherwise the result is the id of an intersecting entry with no intersecting entry after it |
| `ActiveNav.Highlight` | script.js:30-32 | the highlighting rule: one flag per link, and link k is active exactly when its href is `"#" + id` (the definition); `HighlightAnchor` and `HighlightSingle` derive which links that lights, and `NavLinks.OnEntries` applies it |
| `ActiveNav.HighlightAnchor` | script.js:30-32 | for any hrefs, a link is active only if its href is `"#" + id`, and some link is active exactly when one has that href |
| `ActiveNav.HighlightSingle` | script.js:30-32 | with distinct hrefs, at most one link is active, and it is the one whose href is `"#" + id` |
| `ActiveNav.NavLinks.OnEntries` | script.js:26-34 | after a batch, link k is active iff its href is `"#" + id` for the last intersecting entry's `id`; a batch without intersecting entries changes no link |
| `MobileMenu.Menu.HamburgerClick` | script.js:48-54 | the menu's `open` flips; the button's `open` class, `aria-expanded`, `aria-hidden` (its negation) and body overflow (`hidden` when open, empty otherwise) then agree with it |
| `MobileMenu.Menu.LinkClick` | script.js:58-64 | the menu ends closed and the four attributes agree with "closed" |
| `MobileMenu.HamburgerTwice` | script.js:48-54 | two hamburger clicks restore `open`; from a consistent state they restore every attribute |
| `MobileMenu.LinkClickAgain` | script.js:57-65 | on a menu already closed and consistent, as a link click leaves it, another link click changes no field: the click is idempotent |
| `OneShot.OneShotObserver.constructor` | script.js:89 | at load every matching element is observed and none has been acted on |
| `OneShot.OneShotObserver.OnEntries` | script.js:74-84 | the intersecting targets of a batch are appended, in order, to the elements acted on (`visible` added, or the counter started) and stop being observed; non-intersecting entries change nothing; `visible` only grows; an element acted on is never observed again |
| `OneShot.Triggered` | script.js:118-120 | an element is acted on in a batch exactly when the batch has an intersecting entry for it |
| `OneShot.FiresAtMostOnce` | script.js:117-121 | when the browser reports only distinct, still-observed targets, no element is acted on twice |
| `CounterAnimation.StepFrame` | script.js:102-110 | a frame requests another exactly when fewer than 1800 ms have elapsed; a frame that requests none shows exactly the target |
| `CounterAnimation.IntermediateBounded` | script.js:106-107 | for a target of at least 0 and an eased progress in [0, 1), an intermediate frame shows a value between 0 and the target |
| `CounterAnimation.Run` | script.js:102-112 | the frame chain on a sequence of ticks: no more frames than ticks, none exactly when there are no ticks, every frame but the last requests a successor, and a chain that stops before the ticks run out ends on a frame that requests none |
| `CounterAnimation.RunStopsAtDuration` | script.js:104-109 | the frame chain stops at the first frame whose elapsed time reaches 1800 ms; that frame shows exactly the target; every earlier frame requested its successor |
| `CounterAnimation.RunTerminates` | script.js:104-112 | with strictly increasing frame times, the chain ends on the target after at most 1801 frames |
| `CounterAnimation.RunAt` | script.js:108 | frame i runs exactly when every earlier frame requested the next one |
| `CounterAnimation.Counter.constructor` | script.js:97-112 | `animateCounter` keeps the parsed target (lines 97-100) and requests the first frame (line 112) |
| `CounterAnimation.Counter.Step` | script.js:102-110 | the displayed value and the frame request after one callback are those of `StepFrame` |
| `CounterAnimation.Counter.Animate` | script.js:102-112 | running the requested frames over a sequence of ticks runs `|Run(target, ticks)|` frames and ends showing the last value `Run` predicts (the text is untouched when no frame runs); a frame stays requested only if the ticks ran out first |

## Left out

- Hero particles (script.js:131-174): random float sizes, positions and colours, and DOM creation.
- Smooth anchor scrolling (script.js:177-188): float layout geometry and a `scrollTo` side effect.
- The lazy-load iframe block (script.js:240-246): it re-sets an attribute to the value it already has.
- IntersectionObserver geometry (`rootMargin`, `threshold`): intersection is an input of each entry.
- The unused `delay` in the reveal callback (script.js:78-80): it is computed and never read.
- Element lookup and the early-return guards for missing elements. The one exception is a missing form field, which is modelled as `None` because it reaches the blank-field check.
- `showFormMsg` styling, its 5-second removal timer, `window.open` and `form.reset`. The model records only the notice kind, the URL opened and whether the form is reset.
- CounterAnimation.StepFrame: the easeOutExpo value `1 - 2^(-10p)` is floating point. It is an input of each frame, and the bounds lemma assumes it lies in [0, 1).
- CounterAnimation.StepFrame: elapsed time is a whole number of milliseconds, at least 0. A frame timestamp earlier than the start (a negative elapsed time) is not modelled.
- CounterAnimation.Counter.constructor: the target is an integer. A `data-target` that `parseInt` turns into NaN is not modelled.
- OneShot.FiresAtMostOnce: assumes the browser reports each target at most once per batch, and only while it is observed. The callback itself does not check either.
- HeaderScroll.Header.OnScroll: `scrollY` is a real number, not an IEEE double.
- JsStrings.Trim: the white-space set is the Unicode "Zs" category as of Unicode 15, written out explicitly.
