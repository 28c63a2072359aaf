# Portfolio site: the logic behind the pages

A Dafny model of the few rules in a personal portfolio website that compute
something rather than lay out markup:

- **Contact form** (`ContactForm`, `contact_form.dfy`): the server action
  `submitContactForm` checks the submitted name, email, subject and message
  against its schema and answers with a fresh form state: an error state
  that carries one message for each failing field, or a success state with a
  thank-you message. The contact page shows the first message of a failing
  field under that field, a green banner on success, and a red banner only
  for an error state that has no field errors.
- **Testimonial slider** (`TestimonialSlider`, `testimonial_slider.dfy`): a
  class with the one state cell `currentIndex`, which the next and previous
  buttons move cyclically and the dots set directly.
- **Figma embed** (`FigmaEmbed`, `figma_embed.dfy`): `getEmbedUrl` splits the
  link on `/` and accepts it when the first `file` piece is followed by a
  non-empty piece. The embed URL then carries the whole link, percent-encoded.
  Otherwise the component renders a fallback that links to the link as given.
- **`encodeURIComponent`** (`UriEncoding`, `uri_encoding.dfy`): the JavaScript
  built-in as the ECMAScript Language Specification defines it. Unreserved
  characters are copied. Every other character becomes its UTF-8 bytes, each
  written as `%` and two upper-case hex digits. A decoder is proved to undo it.
- **Project card** (`ProjectCard`, `project_card.dfy`): what a card shows,
  derived from its project's props. This covers the clickable deny-list, the
  link, the badge override, the in-progress markers, the image fallback and
  the colour string.
- **Skill filter** (`SkillFilter`, `skill_filter.dfy`): the about page
  computes a category list, `"All"` followed by the distinct categories in
  first-appearance order, and the skills filtered by the active category.
  The page renders neither value; the lemmas speak of a category as a tab
  and of its filtered skills as the skills shown under it.

`wrappers.dfy` holds the `Option` type used for `null` and `undefined`.

String lengths in the contact schema are JavaScript lengths, i.e. UTF-16
code units: a character outside the Basic Multilingual Plane counts 2
(`Utf16Length`). The message rule accepts exactly 10 to 1000 code units. The
upper bound is inclusive, although the error text says "less than 1000
characters"; the model follows the code.

## Model

| member | source | states |
|---|---|---|
| ContactForm.Utf16Length | app/contact/actions.ts:6-12 | The length the schema checks is between the number of characters and twice that, equals it when no character lies outside the Basic Multilingual Plane, and is 1 for a single character inside that plane and 2 for one outside it |
| ContactForm.Utf16LengthAppend | app/contact/actions.ts:6-12 | The length of a concatenation is the sum of the lengths, so together with the one-character case each character counts exactly 1 or 2 code units, as JavaScript's `length` does |
| ContactForm.Issues | app/contact/actions.ts:5-13 | A field has an issue exactly when it breaks its rule (name at least 2, a valid email, any subject, message 10 to 1000), and then exactly one |
| ContactForm.FieldErrors | app/contact/actions.ts:38 | The flattened field errors have an entry exactly for the fields with issues, holding those issues |
| ContactForm.SubmitContactForm | app/contact/actions.ts:26-57 | Success exactly when every field passes, with the thank-you message and no errors; otherwise error, with the correction message and an errors entry for exactly the failing fields |
| ContactForm.OneMessagePerFailingField | app/contact/actions.ts:6-12 | After a submission each failing field holds exactly one message and each passing field none |
| ContactForm.NameRule | app/contact/actions.ts:6 | The name's errors are `["Name must be at least 2 characters."]` when it is shorter than 2, else none |
| ContactForm.EmailRule | app/contact/actions.ts:7 | The email's errors are `["Invalid email address."]` when it is not an address, else none |
| ContactForm.SubjectNeverRejected | app/contact/actions.ts:8 | No subject, the empty one included, produces an error |
| ContactForm.MessageRule | app/contact/actions.ts:9-12 | The message's errors are the too-short message below 10, the too-long message above 1000, none from 10 to 1000 inclusive |
| ContactForm.IgnoresPreviousState | app/contact/actions.ts:26-32 | Two submissions of the same fields give the same state whatever the previous state was |
| ContactForm.AstralNameHasLengthTwo | app/contact/actions.ts:6 | A one-character name outside the Basic Multilingual Plane has length 2, so it passes the name rule |
| ContactForm.ShownFieldError | app/contact/page.tsx:140-142 | A field's error paragraph appears exactly when the state holds a list for the field, even an empty one (an array is truthy); it reads the first message, or nothing for an empty list |
| ContactForm.ShownAfterSubmit | app/contact/page.tsx:140-142 | After a submission a field's error paragraph appears exactly when the field fails its rule, and it reads that rule's message |
| ContactForm.BannersAfterSubmit | app/contact/page.tsx:221-232 | Of the banner conditions `ShowsSuccessBanner` (`state.type === "success"`) and `ShowsErrorBanner` (an error type with a message and no `errors`): after a submission the red banner never shows; the green one shows exactly for valid fields; an invalid submission shows a message under some field |
| ContactForm.InitialStateShowsNothing | app/contact/page.tsx:30-33 | The initial state shows no banner and no field message |
| TestimonialSlider.NextIndex | components/testimonial-slider.tsx:23-25 | The next index stays in range and is one more, wrapping from the last to 0 |
| TestimonialSlider.PrevIndex | components/testimonial-slider.tsx:27-29 | The previous index stays in range and is one less, wrapping from 0 to the last |
| TestimonialSlider.NextPrevInverse | components/testimonial-slider.tsx:23-29 | Next after previous and previous after next both return to the same index |
| TestimonialSlider.AdvanceIsModular | components/testimonial-slider.tsx:24 | k presses of next from i give (i + k) mod n |
| TestimonialSlider.FullCycle | components/testimonial-slider.tsx:24 | n presses of next return to the start, and no fewer (above zero) do |
| TestimonialSlider.RetreatUndoesAdvance | components/testimonial-slider.tsx:23-29 | k presses of previous undo k presses of next |
| TestimonialSlider.OneActiveDot | components/testimonial-slider.tsx:79-81 | Exactly one dot is active |
| TestimonialSlider.PortraitSrc | components/testimonial-slider.tsx:56-59 | The portrait source is the testimonial's image when that is non-empty and the placeholder portrait when it is empty, so never empty |
| TestimonialSlider.Slider.constructor | components/testimonial-slider.tsx:20-21 | The slider starts at index 0 over a non-empty list |
| TestimonialSlider.Slider.NextTestimonial | components/testimonial-slider.tsx:23-25 | The index becomes the next index of the old one and stays valid |
| TestimonialSlider.Slider.PrevTestimonial | components/testimonial-slider.tsx:27-29 | The index becomes the previous index of the old one and stays valid |
| TestimonialSlider.Slider.SelectDot | components/testimonial-slider.tsx:78 | Clicking dot k sets the index to exactly k |
| TestimonialSlider.Slider.Current | components/testimonial-slider.tsx:50-67 | The testimonial shown is the one at the current index; its portrait is its image, or the placeholder portrait when the image is empty |
| TestimonialSlider.Slider.RenderDots | components/testimonial-slider.tsx:75-83 | The rendered dots number the testimonials, and the current one is the only active dot |
| TestimonialSlider.NextThenPrev | components/testimonial-slider.tsx:87-92 | Pressing the right button, then the left, shows the same testimonial again |
| FigmaEmbed.Split | components/figma-embed.tsx:13 | Splitting on `/` gives at least one piece and no piece contains `/` |
| FigmaEmbed.JoinSplit | components/figma-embed.tsx:13 | Joining the pieces of a split with `/` gives back the link |
| FigmaEmbed.SplitJoin | components/figma-embed.tsx:13 | Splitting a join of slash-free pieces gives back the pieces |
| FigmaEmbed.FindIndex | components/figma-embed.tsx:14 | The result is -1 exactly when no piece is `file`, otherwise the first index holding `file` |
| FigmaEmbed.GetEmbedUrl | components/figma-embed.tsx:11-23 | A URL comes back exactly when the first `file` piece has a non-empty piece after it, and it is the embed prefix followed by the encoded whole link |
| FigmaEmbed.OnlyFirstFileCounts | components/figma-embed.tsx:14-15 | A first `file` piece that is last, or followed by an empty piece, gives null whatever follows |
| FigmaEmbed.FileLinkAccepted | components/figma-embed.tsx:13-17 | A link with no earlier `file` piece, then `file`, then a non-empty id, is embedded |
| FigmaEmbed.NoFilePieceRejected | components/figma-embed.tsx:13-15 | A link with no `file` piece gives null |
| FigmaEmbed.EmbedUrlCarriesOriginal | components/figma-embed.tsx:17 | The embed URL starts with the fixed prefix and its `url` parameter decodes to exactly the original link |
| FigmaEmbed.EmbedUrlInjective | components/figma-embed.tsx:16-17 | Different accepted links give different embed URLs, so the file id alone does not decide the output |
| FigmaEmbed.Render | components/figma-embed.tsx:25-48 | An iframe with the embed URL and the title exactly when the link is accepted, otherwise the fallback linking to the link as given; the height is the prop or 600 |
| UriEncoding.EncodeChar | components/figma-embed.tsx:17 | An unreserved character encodes to itself, any other to a sequence starting with `%` |
| UriEncoding.Utf8RoundTrip | components/figma-embed.tsx:17 | The UTF-8 bytes of a character announce their own number in the first byte and decode back to its code point |
| UriEncoding.DecodeEncode | components/figma-embed.tsx:17 | `EncodeUriComponent` (`encodeURIComponent`, character by character) is undone by the decoder: decoding the encoding of any string gives the string back |
| UriEncoding.EncodeInjective | components/figma-embed.tsx:17 | Two strings with the same encoding are equal |
| UriEncoding.EncodeIsUriSafe | components/figma-embed.tsx:17 | The output of `EncodeUriComponent` holds only unreserved characters, `%` and upper-case hex digits, so no `/`, `?`, `&`, `=` or `#` |
| ProjectCard.Render | components/project-card.tsx:31-96 | The card links exactly when the slug is not `zumo-exchange-feature` or `waifind`, to `/work/` followed by the slug; the cursor follows; the image is never empty and falls back to the in-progress image; the badge is overridden for the Zark title; both in-progress markers and the coming-soon description appear exactly when `inProgress` is true; the colour is `hsl(` + colour + `)` |
| ProjectCard.LinkIdentifiesSlug | components/project-card.tsx:90-96 | Two cards with the same link have the same slug |
| ProjectCard.ColorIdentifiesColor | components/project-card.tsx:86 | Two cards with the same colour string were given the same colour |
| ProjectCard.DenyList | components/project-card.tsx:31-32 | `IsClickable` (`!nonClickableProjects.includes(slug)`) decides the link: a deny-listed slug renders with no link and the default cursor; any other slug links to its case-study page |
| SkillFilter.DistinctSpec | app/about/page.tsx:147 | `Distinct` (`Array.from(new Set(...))`, values inserted one after the other) holds exactly the values of the column, each once, in order of first occurrence |
| SkillFilter.SkillCategories | app/about/page.tsx:147 | The computed category list starts with `All`, then each category that some skill has, once, in order of first appearance |
| SkillFilter.FilterCategory | app/about/page.tsx:149 | The filtered list holds only skills of the category, each as often as in the list, as a subsequence of the list |
| SkillFilter.AllShowsEverything | app/about/page.tsx:148-149 | `FilteredSkills` with `All` active is the skill list unchanged |
| SkillFilter.CategoryShowsItsSkills | app/about/page.tsx:148-149 | `FilteredSkills` with another category active holds a skill exactly when it has that category, in list order, and a category no skill has shows nothing |
| SkillFilter.TabsPartition | app/about/page.tsx:147-149 | Over categories named once each, the filtered lists together hold as many skills as the list |
| SkillFilter.CategoriesPartitionSkills | app/about/page.tsx:147-149 | Each skill is in the filtered list of exactly one category, its own, and the filtered lists of the categories together hold every skill once |
| SkillFilter.PageCategories | app/about/page.tsx:31-40 | For the page's skills the computed categories are All, Design, Tools, Research, Development |
| SkillFilter.PageShowsAllSkills | app/about/page.tsx:135-149 | The active category stays `All`, so the filtered list the page computes is every skill; no skill is itself in a category named `All` |

## Left out

- The 1.5-second artificial delay and the console logging in the contact action, and all client-side logging on the contact page: side effects with no bearing on the result.
- The email address pattern of the schema library: the action takes it as the parameter `isEmail`, and every statement about emails holds for any such pattern.
- ContactForm.SubmitContactForm: the fields are strings. An absent form field (`null`) would fail the schema's string check with a type message; the page always submits all four inputs, so this path is not modelled.
- The internals of the schema library's error flattening: modelled as a map from field to its list of messages.
- The pending state of the form (`isPending`), which comes from the framework, and the page's effect that resets the form's inputs (`formRef.current?.reset()`) when the state's type is success: it clears the inputs in the document and changes no state of the model.
- UriEncoding: `encodeURIComponent` throws for a lone surrogate, which the `try` in `getEmbedUrl` turns into `null`; a Dafny `char` is a Unicode scalar value, so that input cannot be written here.
- UriEncoding.DecodeUriComponent is only the left inverse the proofs need. It is not the full built-in, and it accepts some malformed byte sequences that the built-in rejects.
- TestimonialSlider: the five-second autoplay timer is left out. Each of its ticks is a call of `NextTestimonial`.
- TestimonialSlider.Slider: the testimonial list is fixed when the slider is made. A parent that re-renders it with a shorter list could leave the index out of range; that is not modelled.
- The slide animations, the project card's entrance animation, its `index` prop (only an animation delay), its `isHovered` state (written but never read) and its view tracking.
- SkillFilter: the page computes the category list and the filtered skills but renders neither, and the active category never leaves `All`, so the filter has no visible effect on the page; the model states what the two values are.
- SkillFilter.CategoriesPartitionSkills assumes no skill's category is itself `All`. Filtering by such a category would give every skill. The page's data has no such skill (PageShowsAllSkills).
- The remaining pages and components: home, work listing, case-study pages, résumé and footer, which lay out literal content records; the blog post page's slug lookup with its not-found page, and the case-study page's lookup of a project by slug, its previous and next project by key order and its not-found state, which are lookups over content records outside these five components; and the cursor follower, which tracks mouse events through browser listeners.
