# Note titles and safe Markdown rendering, in Dafny

This project models the two pieces of real logic in a small Django
note-taking application:

- **Title cleaning** (`NoteForm.clean_title`, notes/forms.py). A submitted
  title has every run of whitespace collapsed to one space and both ends
  trimmed (`" ".join(title.split())`). It is then rejected with "Titel moet
  minstens 3 tekens bevatten." when fewer than three characters remain.
- **The HTML allow-list behind the `markdownify` filter**
  (notes/templatetags/markdown_extras.py). This covers the `ALLOWED_TAGS`,
  `ALLOWED_ATTRS` and `ALLOWED_PROTOCOLS` tables and the clean step that
  enforces them with `strip=True`:
  - a disallowed element is removed and its content takes its place;
  - an allowed element keeps only the attributes listed for its tag;
  - an `href` stays only with an allowed scheme.

  The clean step works on an abstract, already-parsed HTML tree. The
  Markdown converter is a parameter of the render function.

Modules:

| file | module | contents |
|---|---|---|
| results.dfy | `Results` | `Option` (Python's `None` or a value) and `Result` (value or validation error) |
| py_str.dfy | `PyStr` | Python's whitespace table, `str.split()`, `" ".join`, the single-spaced normal form, and the round-trip and content lemmas about them |
| note_form.dfy | `NoteForm` | `NormalizeTitle`, `CleanTitle`, and the lemmas and concrete cases for titles |
| html_tree.dfy | `HtmlTree` | the `Node` tree (`Text` or `Element(tag, attrs, children)`) and its flat views: text content, element tags in document order, tagged attributes |
| markdown_extras.dfy | `MarkdownExtras` | the three policy tables as constants, the URL-scheme check, `FilterAttrs`, `Clean`, `RenderClean`, and the safety, projection and preservation lemmas |

Two choices follow the code's configuration:

- `Clean` keeps the content of every removed element, including `script`, as
  `bleach.clean(..., strip=True)` does. notes/tests/test_notes_markdown.py:40-43
  allows `alert('xss')` to remain as plain text and asserts only that no
  `<script` tag is left.
- `ALLOWED_ATTRS` has no `"*"` entry, so attribute lists are per tag only.

## Model

| member | source | states |
|---|---|---|
| NoteForm.NormalizeTitle | notes/forms.py:40-47 | The normalised title is in normal form: no whitespace at either end, only plain spaces, never two whitespace characters in a row. It has exactly the words of the input, keeps every non-whitespace character in order, and is never longer than the input. |
| NoteForm.CleanTitle | notes/forms.py:45-50 | A missing cleaned value counts as "". A title whose normalised form is shorter than 3 is rejected with the "minstens 3 tekens" message. Otherwise the result is single-spaced, has the input's words and non-whitespace characters, and is at least 3 long. |
| NoteForm.NormalizeIdempotent | notes/forms.py:47 | Normalising an already normalised title returns it unchanged. |
| NoteForm.NormalizeCharacterised | notes/forms.py:40-47 | A string is the normalised title exactly when it is single-spaced and has the same words as the input: the normal form is unique. |
| NoteForm.NormalizeFixpoints | notes/forms.py:47 | A title is left unchanged by normalisation exactly when it is already single-spaced. |
| NoteForm.NormalizedLength | notes/forms.py:47-48 | The normalised length is the number of non-whitespace characters plus one space between each pair of neighbouring words (0 when there are no words). This is the quantity the length check compares with 3. |
| NoteForm.TitleAcceptance | notes/forms.py:47-49 | A title with at least 3 non-whitespace characters is always accepted. One with at most 1 is always rejected. |
| NoteForm.ShortTitleRejected | notes/tests/test_notes_detail_api.py:41-44 | "  A " is rejected with the "minstens 3 tekens" error. |
| NoteForm.EmptyTitleRejected | notes/tests/test_notes_form.py:37-39 | "" is rejected with the "minstens 3 tekens" error, and so is a missing title. |
| NoteForm.PaddedTitleTrimmed | notes/tests/test_notes_detail_api.py:47-54 | "  Geldige titel  " is accepted as "Geldige titel". |
| PyStr.Split | notes/forms.py:47 | `title.split()` yields only non-empty runs that contain no whitespace. With SplitWord, SplitSkipsSpace and SplitWordWs, and `Split("") == []`, this fixes the result on every input: the words are the maximal whitespace-free runs. |
| PyStr.SplitSkipsSpace | notes/forms.py:47 | A leading whitespace character does not change what `split()` returns. |
| PyStr.SplitWord | notes/forms.py:47 | A lone word splits into exactly itself, so a whitespace-free run is never cut. |
| PyStr.SplitWordWs | notes/forms.py:47 | A word followed by any whitespace character splits into that word, then the words of what follows: a word ends at the first whitespace. |
| PyStr.Join | notes/forms.py:47 | `" ".join` of a non-empty list of words is as long as their characters plus one separator between each pair of neighbours. |
| PyStr.SplitJoin | notes/forms.py:47 | Splitting a space-joined list of words gives back exactly that list. |
| PyStr.JoinSplitOfSingleSpaced | notes/forms.py:47 | A single-spaced string is rebuilt exactly by joining its words with single spaces. |
| PyStr.JoinSingleSpaced | notes/forms.py:40-47 | Joining words with `" "` gives a string with no edge whitespace, no whitespace other than plain spaces, and no two whitespace characters in a row. |
| PyStr.SplitContent | notes/forms.py:47 | The words of a string, glued together, are exactly its non-whitespace characters in order. |
| PyStr.JoinContent | notes/forms.py:47 | Joining words adds nothing but whitespace: its non-whitespace characters are the words glued together. |
| PyStr.JoinSplitShrinks | notes/forms.py:47 | `" ".join(s.split())` is never longer than `s`. |
| MarkdownExtras.PolicyConsistent | notes/templatetags/markdown_extras.py:31-72 | Every tag that has attribute allowances in `ALLOWED_ATTRS` is itself in `ALLOWED_TAGS`. |
| MarkdownExtras.NoEventHandlerAllowed | notes/templatetags/markdown_extras.py:65-72 | No attribute name that `ALLOWED_ATTRS` lists for any tag is an `on...` event handler. |
| MarkdownExtras.FilterAttrs | notes/templatetags/markdown_extras.py:102-106 | An attribute of an allowed element survives exactly when it is listed for that tag and, if it is an `href`, its URL is allowed. Surviving attributes keep their values. |
| MarkdownExtras.Clean | notes/templatetags/markdown_extras.py:101-108 | The cleaned fragment satisfies the whole policy (tags, attributes, schemes, at every depth). Its text content equals the input's. This ignores the newline bleach adds for a stripped block-level tag (see Left out). |
| MarkdownExtras.RenderClean | notes/templatetags/markdown_extras.py:77-108 | Whatever the Markdown converter returns for `text or ""`, the rendered fragment satisfies the policy. It keeps the converter's text content, ignoring the block-tag newline (see Left out). |
| MarkdownExtras.RenderMissingAsEmpty | notes/templatetags/markdown_extras.py:81 | A missing text (`None`) renders exactly as the empty text does. |
| MarkdownExtras.SafeMeaning | notes/templatetags/markdown_extras.py:102-106 | A fragment satisfies the policy exactly when every element tag in it is allowed and every attribute in it is allowed for the tag that carries it. |
| MarkdownExtras.CleanAppend | notes/templatetags/markdown_extras.py:101-108 | Cleaning a concatenation of fragments is concatenating their cleaned forms. |
| MarkdownExtras.StripSplicesChildren | notes/templatetags/markdown_extras.py:107 | With `strip=True` a disallowed element disappears and its cleaned content stands in its place, between the same neighbours. This ignores the newline bleach adds for a stripped block-level tag (see Left out). |
| MarkdownExtras.KeepAllowedElement | notes/templatetags/markdown_extras.py:102-107 | An allowed element stays in place between the same neighbours, with its attributes filtered for its tag and its content cleaned, so `<p><script>x</script></p>` becomes `<p>x</p>`. With CleanAppend and StripSplicesChildren this fixes the result of cleaning on every fragment. |
| MarkdownExtras.CleanKeepsAllowedTags | notes/templatetags/markdown_extras.py:102-107 | The element tags of the result are those of the input with the disallowed ones removed, in the same order. Every allowed element survives. |
| MarkdownExtras.CleanKeepsAllowedAttrs | notes/templatetags/markdown_extras.py:102-106 | The attributes of the result are exactly the input's attributes that sit on an allowed element and are allowed there. |
| MarkdownExtras.CleanFixpointIffSafe | notes/templatetags/markdown_extras.py:101-108 | Cleaning leaves a fragment unchanged exactly when it already satisfies the policy. |
| MarkdownExtras.CleanIdempotent | notes/templatetags/markdown_extras.py:101-108 | Cleaning twice is the same as cleaning once. |
| MarkdownExtras.CleanRemovesScript | notes/tests/test_notes_markdown.py:40-43 | No `script` element survives cleaning, whatever the input. |
| MarkdownExtras.CleanKeepsOnlyListedAttrs | notes/templatetags/markdown_extras.py:65-74 | Every surviving attribute sits on a tag that `ALLOWED_ATTRS` mentions and is listed there. So `h1`, `pre` or `strong` keep none. No event handler survives, and every surviving `href` has an allowed URL. |
| MarkdownExtras.UriScheme | notes/templatetags/markdown_extras.py:106 | A detected scheme is a well-formed scheme name and is followed by ':'. When no scheme is detected, no text before a ':' is a well-formed scheme name. |
| MarkdownExtras.UriAllowedMeaning | notes/templatetags/markdown_extras.py:74 | In the modelled URI check, an `href` value is kept exactly when every well-formed "scheme:" it starts with (after noise removal and ASCII lower-casing) names one of `http`, `https`, `mailto`. A value with no such prefix is kept. |
| MarkdownExtras.SchemeDecides | notes/templatetags/markdown_extras.py:74 | In the modelled URI check, once noise is removed, a URL that starts with "scheme:" is kept exactly when the lower-cased scheme is `http`, `https` or `mailto`. |
| MarkdownExtras.JavascriptRefused | notes/templatetags/markdown_extras.py:74 | In the modelled URI check, every `javascript:` URL is refused, in any mix of upper and lower case. The check differs from bleach's in the cases listed under Left out. |
| MarkdownExtras.NoiseIgnored | notes/templatetags/markdown_extras.py:106 | In the modelled URI check, a noise character (control, whitespace, backtick) anywhere in a URL does not change whether it is kept. |
| MarkdownExtras.RelativeUrlKept | notes/templatetags/markdown_extras.py:74 | A URL starting with '/', '#' or '?' has no scheme and is kept, because `http` is an allowed protocol. |
| MarkdownExtras.RefusedLinkLosesHref | notes/templatetags/markdown_extras.py:105-106 | A link whose URL is refused keeps its element, its title and its cleaned content, and loses only its `href`. |
| MarkdownExtras.StrongElementUnchanged | notes/tests/test_notes_markdown.py:31 | `<strong>vet</strong>` passes through cleaning unchanged. |
| MarkdownExtras.ScriptStrippedTextKept | notes/tests/test_notes_markdown.py:40-43 | `<script>alert('xss');</script>` becomes the plain text `alert('xss');`. |
| MarkdownExtras.ImageWithHandlerRemoved | notes/templatetags/markdown_extras.py:31-62 | `<img src=x onerror=alert(1)>` disappears entirely, because `img` is not an allowed tag. |

## Left out

- Markdown-to-HTML conversion (`markdown.markdown` with the extra,
  codehilite, toc, sane_lists and smarty extensions) is a foreign library.
  `RenderClean` takes the converter as a function parameter.
- The HTML tokeniser and serialiser of bleach and html5lib are foreign code.
  The model cleans an abstract tree. Tag and attribute names are taken as the
  tokeniser delivers them: lower-casing, entity decoding, comments and
  escaping of text on output are not modelled.
- `bleach.linkify` (line 112) is not modelled: URL detection in text is
  foreign code. `RenderClean` therefore stops at the cleaned fragment.
- `mark_safe` (line 115) and the `markdownify` filter (lines 118-124) only
  mark or forward the value; they hold no logic.
- MarkdownExtras.UriAllowed is a stand-in for bleach's URI check, whose code
  is not part of this model. It removes noise characters (backtick, controls,
  U+007F-U+00A0, whitespace, U+FFFD), lower-cases ASCII, and reads the scheme
  as a URL splitter does. bleach's URL parser is expected to differ in these
  unmodelled cases:
  - character entities in the value are not decoded;
  - a value the URL parser rejects as malformed (`http://[x`) is dropped by
    bleach but kept by the model;
  - `scheme:` followed only by digits (`javascript:0`) is read as a port, so
    bleach finds no scheme and keeps it, while the model refuses it;
  - a scheme starting with a digit (`1x:y`) is refused by bleach and kept by
    the model, which requires a letter first;
  - lower-casing is full Unicode (U+212A KELVIN SIGN becomes `k`), while the
    model lower-cases ASCII only.
- MarkdownExtras.Clean does not model the newline that bleach's tokeniser
  emits with `strip=True` in place of a stripped block-level start tag
  (`div`, `section`, `article`, `dl`, `dd`, `dt`, `form`, `figure`,
  `header`, `footer`, `nav`, `address`, ...) that is not the first token.
  bleach turns `<p>x</p><div>y</div>` into `<p>x</p>\ny`; the model gives
  `<p>x</p>y`. The
  policy guarantees are unaffected.
- PyStr.IsSpace is Python's `str.isspace` table written out for a recent
  Unicode version. A different Unicode database may classify a few more or
  fewer characters.
- Django's own field handling (`max_length=120` on `Note.title`,
  CharField's pre-strip, the required check) runs before `clean_title` and is
  framework validation, not part of `clean_title`. For an empty title
  Django's required check fires first, so `clean_title` does not run in the
  live form. `EmptyTitleRejected` states what `clean_title` itself does with
  "".
- Views, URL routing, authentication, the API-key check, models, admin,
  settings, the `site_meta` context processor (wall-clock date) and
  docs/build_docs.py (subprocess I/O) are CRUD glue or I/O outside the core.
