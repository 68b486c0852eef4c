/** The `markdownify` template filter (notes/templatetags/markdown_extras.py):
    the allow-list policy and the clean step that enforces it with
    `strip=True`, applied to an abstract HTML fragment. Markdown conversion is
    a parameter; linkify and `mark_safe` are not part of this model. */
module MarkdownExtras {
  import opened Results
  import opened HtmlTree
  import PyStr

  // ---------------------------------------------------------------------
  // The policy tables

  /** The element names that may appear after cleaning (`ALLOWED_TAGS`). */
  const AllowedTags: set<string> := {
    "p", "br", "hr", "strong", "b", "em", "i", "code", "pre", "blockquote",
    "ul", "ol", "li", "h1", "h2", "h3", "h4", "h5", "h6", "a",
    "table", "thead", "tbody", "tr", "th", "td",
    "span"
  }

  /** Per element name, the attribute names it may keep (`ALLOWED_ATTRS`). */
  const AllowedAttrs: map<string, set<string>> := map[
    "a" := {"href", "title", "rel"},
    "code" := {"class"},
    "span" := {"class"},
    "th" := {"align"},
    "td" := {"align"},
    "p" := {"align"}
  ]

  /** The URL schemes a link may use (`ALLOWED_PROTOCOLS`). */
  const AllowedProtocols: set<string> := {"http", "https", "mailto"}

  /** Among the attribute names of the policy, those whose value is a URL and
      is therefore checked against the allowed schemes. */
  const UriValuedAttrs: set<string> := {"href"}

  /** The attribute names an element with this tag may keep; a tag the table
      does not mention keeps none. */
  function AttrsFor(tag: string): set<string> {
    if tag in AllowedAttrs then AllowedAttrs[tag] else {}
  }

  // ---------------------------------------------------------------------
  // URL schemes

  predicate IsAsciiLetter(c: char) {
    'a' <= c <= 'z' || 'A' <= c <= 'Z'
  }

  /** The characters a URL scheme may consist of. */
  predicate IsSchemeChar(c: char) {
    IsAsciiLetter(c) || '0' <= c <= '9' || c == '+' || c == '-' || c == '.'
  }

  /** A well-formed scheme name: an ASCII letter followed by scheme characters. */
  predicate IsSchemeName(s: string) {
    |s| > 0 && IsAsciiLetter(s[0]) && forall i :: 0 <= i < |s| ==> IsSchemeChar(s[i])
  }

  function LowerChar(c: char): (d: char)
    ensures IsAsciiLetter(c) <==> IsAsciiLetter(d)
    ensures IsSchemeChar(c) <==> IsSchemeChar(d)
    ensures !('A' <= d <= 'Z')
  {
    if 'A' <= c <= 'Z' then (c as int + 32) as char else c
  }

  /** ASCII lower-casing, character by character. */
  function Lower(s: string): (r: string)
    ensures |r| == |s|
    ensures forall i :: 0 <= i < |s| ==> r[i] == LowerChar(s[i])
  {
    seq(|s|, i requires 0 <= i < |s| => LowerChar(s[i]))
  }

  /** Characters removed from a URL before its scheme is judged: the
      backtick, controls and space, DEL through NO-BREAK SPACE, all
      whitespace, and the replacement character. They cannot split a scheme
      such as "java\tscript" past the check. */
  predicate IsUriNoise(c: char) {
    c == '`' || c <= ' ' || '\U{7F}' <= c <= '\U{A0}' || PyStr.IsSpace(c) || c == '\U{FFFD}'
  }

  /** The URL with its noise characters removed, the others kept in order. */
  function DropUriNoise(v: string): (r: string)
    ensures |r| <= |v|
    ensures forall i :: 0 <= i < |r| ==> !IsUriNoise(r[i])
  {
    if v == [] then []
    else (if IsUriNoise(v[0]) then [] else [v[0]]) + DropUriNoise(v[1..])
  }

  /** Noise characters inside a URL are dropped wherever they occur. */
  lemma {:induction false} DropUriNoiseAppend(a: string, b: string)
    ensures DropUriNoise(a + b) == DropUriNoise(a) + DropUriNoise(b)
    decreases |a|
  {
    if a == [] {
      assert a + b == b;
    } else {
      assert (a + b)[1..] == a[1..] + b;
      DropUriNoiseAppend(a[1..], b);
    }
  }

  /** The length of the longest prefix of `v` made of scheme characters. */
  function SchemeRun(v: string): (n: nat)
    ensures n <= |v|
    ensures forall i :: 0 <= i < n ==> IsSchemeChar(v[i])
    ensures n == |v| || !IsSchemeChar(v[n])
  {
    if v != [] && IsSchemeChar(v[0]) then 1 + SchemeRun(v[1..]) else 0
  }

  /** The scheme of a URL as a URL splitter finds it: the text before the
      first ':' when that text is a well-formed scheme name; otherwise the URL
      has no scheme (it is relative). */
  function UriScheme(v: string): (r: Option<string>)
    ensures r.Some? ==> IsSchemeName(r.value) && |r.value| < |v|
                        && v == r.value + [':'] + v[|r.value| + 1..]
    ensures r.None? ==> forall n :: 0 < n < |v| && v[n] == ':' ==> !IsSchemeName(v[..n])
  {
    var n := SchemeRun(v);
    if 0 < n < |v| && v[n] == ':' && IsAsciiLetter(v[0]) then
      assert v == v[..n] + [':'] + v[n + 1..];
      Some(v[..n])
    else None
  }

  /** Whether `u` starts with the scheme name `scheme` followed by ':'. */
  predicate StartsWithScheme(u: string, scheme: string) {
    |scheme| < |u| && u[..|scheme|] == scheme && u[|scheme|] == ':'
  }

  /** Whether a URL-valued attribute may keep its value: the URL, without
      noise and lower-cased, must either name an allowed scheme or name none;
      a relative URL is accepted because "http" is an allowed scheme. */
  predicate UriAllowed(value: string) {
    match UriScheme(Lower(DropUriNoise(value)))
    case Some(scheme) => scheme in AllowedProtocols
    case None => "http" in AllowedProtocols || "https" in AllowedProtocols
  }

  /** The URI check without the scheme splitter: a value is kept exactly when
      every well-formed "scheme:" that its noise-free, lower-cased form starts
      with is an allowed protocol. */
  lemma {:induction false} UriAllowedMeaning(value: string)
    ensures UriAllowed(value) <==>
            forall s :: IsSchemeName(s) && StartsWithScheme(Lower(DropUriNoise(value)), s) ==>
                          s in AllowedProtocols
  {
  }

  // ---------------------------------------------------------------------
  // Cleaning

  /** Whether the attribute `name="value"` may stay on an element `tag`. */
  predicate AttrAllowed(tag: string, name: string, value: string) {
    name in AttrsFor(tag) && (name in UriValuedAttrs ==> UriAllowed(value))
  }

  /** Whether an element may stay as it is: its tag is allowed and so is each
      of its attributes. */
  predicate ElementAllowed(tag: string, attrs: map<string, string>) {
    tag in AllowedTags && forall name :: name in attrs ==> AttrAllowed(tag, name, attrs[name])
  }

  /** The policy holds throughout a fragment. */
  predicate Safe(ns: seq<Node>)
    decreases ns
  {
    ns == []
    || (&& (match ns[0]
            case Text(_) => true
            case Element(tag, attrs, kids) => ElementAllowed(tag, attrs) && Safe(kids))
        && Safe(ns[1..]))
  }

  /** The attributes of an allowed element that survive: exactly those the
      policy lists for its tag, URL-valued ones only with an allowed scheme,
      each with its value unchanged. */
  function FilterAttrs(tag: string, attrs: map<string, string>): (r: map<string, string>)
    ensures forall name :: name in r <==> name in attrs && AttrAllowed(tag, name, attrs[name])
    ensures forall name :: name in r ==> r[name] == attrs[name]
  {
    map name | name in attrs && AttrAllowed(tag, name, attrs[name]) :: attrs[name]
  }

  /** `bleach.clean(html, tags=ALLOWED_TAGS, attributes=ALLOWED_ATTRS,
      protocols=ALLOWED_PROTOCOLS, strip=True)` on a parsed fragment: an
      element whose tag is not allowed is removed and its cleaned children
      take its place; an allowed element keeps its allowed attributes and has
      its children cleaned; text is kept. The result satisfies the policy and
      has the same visible text as the input. */
  function Clean(ns: seq<Node>): (r: seq<Node>)
    ensures Safe(r)
    ensures TextContent(r) == TextContent(ns)
    decreases ns
  {
    if ns == [] then []
    else
      var rest := Clean(ns[1..]);
      var head := match ns[0]
        case Text(s) => [Text(s)]
        case Element(tag, attrs, kids) =>
          if tag in AllowedTags then [Element(tag, FilterAttrs(tag, attrs), Clean(kids))]
          else Clean(kids);
      SafeAppend(head, rest);
      TextContentAppend(head, rest);
      head + rest
  }

  /** `_render_markdown_to_clean_html`: a missing text counts as the empty
      text (`text or ""`), the text is converted to HTML by `markdownToHtml`,
      and the result is cleaned. */
  function RenderClean(text: Option<string>, markdownToHtml: string -> seq<Node>): (r: seq<Node>)
    ensures Safe(r)
    ensures TextContent(r) == TextContent(markdownToHtml(text.GetOr("")))
  {
    Clean(markdownToHtml(text.GetOr("")))
  }

  /** A missing text renders as the empty text does. */
  lemma RenderMissingAsEmpty(markdownToHtml: string -> seq<Node>)
    ensures RenderClean(None, markdownToHtml) == RenderClean(Some(""), markdownToHtml)
  {
  }

  // ---------------------------------------------------------------------
  // Lemmas about the tables

  /** Every tag that has attribute allowances is itself an allowed tag. */
  lemma PolicyConsistent()
    ensures forall tag :: tag in AllowedAttrs ==> tag in AllowedTags
  {
  }

  /** An event-handler attribute name: one that begins with "on". */
  predicate IsEventHandlerName(name: string) {
    |name| >= 2 && name[0] == 'o' && name[1] == 'n'
  }

  /** No attribute the policy allows is an event handler. */
  lemma NoEventHandlerAllowed(tag: string, name: string)
    requires name in AttrsFor(tag)
    ensures !IsEventHandlerName(name)
  {
    assert name == "href" || name == "title" || name == "rel" || name == "class" || name == "align";
  }

  // ---------------------------------------------------------------------
  // Lemmas about safety

  /** A fragment is safe exactly when both of its parts are. */
  lemma {:induction false} SafeAppend(a: seq<Node>, b: seq<Node>)
    ensures Safe(a + b) <==> Safe(a) && Safe(b)
    decreases |a|
  {
    if a == [] {
      assert a + b == b;
    } else {
      assert (a + b)[0] == a[0];
      assert (a + b)[1..] == a[1..] + b;
      SafeAppend(a[1..], b);
    }
  }

  /** Every tag in the list is an allowed tag. */
  predicate TagsAllowed(ts: seq<string>) {
    forall i :: 0 <= i < |ts| ==> ts[i] in AllowedTags
  }

  /** Every attribute in the set is allowed for the tag that carries it. */
  predicate AttrsAllowed(as_: set<TaggedAttr>) {
    forall a :: a in as_ ==> AttrAllowed(a.tag, a.name, a.value)
  }

  lemma TagsAllowedAppend(a: seq<string>, b: seq<string>)
    ensures TagsAllowed(a + b) <==> TagsAllowed(a) && TagsAllowed(b)
  {
    if TagsAllowed(a) && TagsAllowed(b) {
      forall i | 0 <= i < |a + b| ensures (a + b)[i] in AllowedTags {
        if i >= |a| {
          assert (a + b)[i] == b[i - |a|];
        }
      }
    }
    if TagsAllowed(a + b) {
      forall i | 0 <= i < |a| ensures a[i] in AllowedTags {
        assert (a + b)[i] == a[i];
      }
      forall i | 0 <= i < |b| ensures b[i] in AllowedTags {
        assert (a + b)[i + |a|] == b[i];
      }
    }
  }

  lemma AttrsAllowedUnion(x: set<TaggedAttr>, y: set<TaggedAttr>)
    ensures AttrsAllowed(x + y) <==> AttrsAllowed(x) && AttrsAllowed(y)
  {
  }

  lemma ElementAllowedMeaning(tag: string, attrs: map<string, string>)
    ensures ElementAllowed(tag, attrs) <==> tag in AllowedTags && AttrsAllowed(TaggedAttrs(tag, attrs))
  {
    forall name | name in attrs
      ensures TaggedAttr(tag, name, attrs[name]) in TaggedAttrs(tag, attrs)
    {
    }
  }

  /** Safety read off the flat views of a fragment: a fragment is safe
      exactly when every element tag in it is allowed and every attribute in
      it is allowed for the tag that carries it. */
  lemma {:induction false} SafeMeaning(ns: seq<Node>)
    ensures Safe(ns) <==> TagsAllowed(ElementTags(ns)) && AttrsAllowed(Attributes(ns))
    decreases ns
  {
    if ns != [] {
      SafeMeaning(ns[1..]);
      match ns[0]
      case Text(_) =>
        assert ElementTags(ns) == ElementTags(ns[1..]);
        assert Attributes(ns) == Attributes(ns[1..]);
      case Element(tag, attrs, kids) =>
        SafeMeaning(kids);
        ElementAllowedMeaning(tag, attrs);
        assert ElementTags(ns) == [tag] + ElementTags(kids) + ElementTags(ns[1..]);
        TagsAllowedAppend([tag] + ElementTags(kids), ElementTags(ns[1..]));
        TagsAllowedAppend([tag], ElementTags(kids));
        assert TagsAllowed([tag]) <==> tag in AllowedTags by {
          assert [tag][0] == tag;
        }
        assert Attributes(ns) == TaggedAttrs(tag, attrs) + Attributes(kids) + Attributes(ns[1..]);
        AttrsAllowedUnion(TaggedAttrs(tag, attrs) + Attributes(kids), Attributes(ns[1..]));
        AttrsAllowedUnion(TaggedAttrs(tag, attrs), Attributes(kids));
        assert Safe(ns) <==> ElementAllowed(tag, attrs) && Safe(kids) && Safe(ns[1..]);
    }
  }

  // ---------------------------------------------------------------------
  // Lemmas about cleaning

  /** Cleaning works piece by piece: cleaning a concatenation is
      concatenating the cleaned pieces. */
  lemma {:induction false} CleanAppend(a: seq<Node>, b: seq<Node>)
    ensures Clean(a + b) == Clean(a) + Clean(b)
    decreases |a|
  {
    if a == [] {
      assert a + b == b;
    } else {
      assert (a + b)[0] == a[0];
      assert (a + b)[1..] == a[1..] + b;
      CleanAppend(a[1..], b);
    }
  }

  /** With `strip=True` a disallowed element disappears and its cleaned
      content stays in its place, between what came before and after it. */
  lemma StripSplicesChildren(pre: seq<Node>, tag: string, attrs: map<string, string>,
                             kids: seq<Node>, post: seq<Node>)
    requires tag !in AllowedTags
    ensures Clean(pre + [Element(tag, attrs, kids)] + post) == Clean(pre) + Clean(kids) + Clean(post)
  {
    CleanAppend(pre + [Element(tag, attrs, kids)], post);
    CleanAppend(pre, [Element(tag, attrs, kids)]);
    assert [Element(tag, attrs, kids)][1..] == [];
  }

  /** An allowed element stays in place, between the same neighbours, with
      its attributes filtered and its content cleaned at every depth. */
  lemma KeepAllowedElement(pre: seq<Node>, tag: string, attrs: map<string, string>,
                           kids: seq<Node>, post: seq<Node>)
    requires tag in AllowedTags
    ensures Clean(pre + [Element(tag, attrs, kids)] + post)
         == Clean(pre) + [Element(tag, FilterAttrs(tag, attrs), Clean(kids))] + Clean(post)
  {
    CleanAppend(pre + [Element(tag, attrs, kids)], post);
    CleanAppend(pre, [Element(tag, attrs, kids)]);
    assert [Element(tag, attrs, kids)][1..] == [];
  }

  /** Cleaning keeps every allowed element and removes every other: the tags
      of the result are those of the input with the disallowed ones taken
      out, in the same order. */
  lemma {:induction false} CleanKeepsAllowedTags(ns: seq<Node>)
    ensures ElementTags(Clean(ns)) == AllowedOnly(ElementTags(ns))
    decreases ns
  {
    if ns != [] {
      var head := [ns[0]];
      assert ns == head + ns[1..];
      CleanAppend(head, ns[1..]);
      ElementTagsAppend(Clean(head), Clean(ns[1..]));
      ElementTagsAppend(head, ns[1..]);
      AllowedOnlyAppend(ElementTags(head), ElementTags(ns[1..]));
      CleanKeepsAllowedTags(ns[1..]);
      match ns[0]
      case Text(s) =>
        CleanTagsOfText(s);
      case Element(tag, attrs, kids) =>
        CleanKeepsAllowedTags(kids);
        CleanTagsOfElement(tag, attrs, kids);
    }
  }

  lemma CleanTagsOfText(s: string)
    ensures ElementTags(Clean([Text(s)])) == AllowedOnly(ElementTags([Text(s)])) == []
  {
    assert [Text(s)][1..] == [];
  }

  lemma CleanTagsOfElement(tag: string, attrs: map<string, string>, kids: seq<Node>)
    requires ElementTags(Clean(kids)) == AllowedOnly(ElementTags(kids))
    ensures ElementTags(Clean([Element(tag, attrs, kids)]))
         == AllowedOnly(ElementTags([Element(tag, attrs, kids)]))
  {
    var n := Element(tag, attrs, kids);
    assert [n][1..] == [];
    assert ElementTags([n]) == [tag] + ElementTags(kids);
    AllowedOnlyAppend([tag], ElementTags(kids));
    if tag in AllowedTags {
      var e := Element(tag, FilterAttrs(tag, attrs), Clean(kids));
      assert Clean([n]) == [e];
      assert [e][1..] == [];
      assert ElementTags([e]) == [tag] + ElementTags(Clean(kids));
    } else {
      assert Clean([n]) == Clean(kids) + [];
      assert Clean(kids) + [] == Clean(kids);
    }
  }

  /** The attributes of `as_` that sit on an allowed element and are
      allowed there. */
  function KeptAttrs(as_: set<TaggedAttr>): set<TaggedAttr> {
    set a | a in as_ && a.tag in AllowedTags && AttrAllowed(a.tag, a.name, a.value)
  }

  /** Cleaning removes exactly the attributes the policy refuses: those on
      removed elements and those not allowed on their element; every other
      attribute survives with its value. */
  lemma {:induction false} CleanKeepsAllowedAttrs(ns: seq<Node>)
    ensures Attributes(Clean(ns)) == KeptAttrs(Attributes(ns))
    decreases ns
  {
    if ns != [] {
      var head := [ns[0]];
      assert ns == head + ns[1..];
      CleanAppend(head, ns[1..]);
      AttributesAppend(Clean(head), Clean(ns[1..]));
      AttributesAppend(head, ns[1..]);
      CleanKeepsAllowedAttrs(ns[1..]);
      match ns[0]
      case Text(s) =>
        assert head[1..] == [];
        assert Clean(head) == [Text(s)];
      case Element(tag, attrs, kids) =>
        CleanKeepsAllowedAttrs(kids);
        CleanAttrsOfElement(tag, attrs, kids);
    }
  }

  lemma CleanAttrsOfElement(tag: string, attrs: map<string, string>, kids: seq<Node>)
    requires Attributes(Clean(kids)) == KeptAttrs(Attributes(kids))
    ensures Attributes(Clean([Element(tag, attrs, kids)]))
         == KeptAttrs(Attributes([Element(tag, attrs, kids)]))
  {
    var n := Element(tag, attrs, kids);
    assert [n][1..] == [];
    assert Attributes([n]) == TaggedAttrs(tag, attrs) + Attributes(kids);
    if tag in AllowedTags {
      var e := Element(tag, FilterAttrs(tag, attrs), Clean(kids));
      assert Clean([n]) == [e];
      assert [e][1..] == [];
      assert Attributes([e]) == TaggedAttrs(tag, FilterAttrs(tag, attrs)) + Attributes(Clean(kids));
      assert TaggedAttrs(tag, FilterAttrs(tag, attrs)) == KeptAttrs(TaggedAttrs(tag, attrs));
    } else {
      assert Clean([n]) == Clean(kids) + [];
      assert Clean(kids) + [] == Clean(kids);
      assert KeptAttrs(TaggedAttrs(tag, attrs)) == {};
    }
  }

  /** The tags of `ts` that are allowed, in order. */
  function AllowedOnly(ts: seq<string>): seq<string> {
    if ts == [] then []
    else (if ts[0] in AllowedTags then [ts[0]] else []) + AllowedOnly(ts[1..])
  }

  lemma {:induction false} AllowedOnlyAppend(a: seq<string>, b: seq<string>)
    ensures AllowedOnly(a + b) == AllowedOnly(a) + AllowedOnly(b)
    decreases |a|
  {
    if a == [] {
      assert a + b == b;
    } else {
      assert (a + b)[1..] == a[1..] + b;
      AllowedOnlyAppend(a[1..], b);
    }
  }

  /** Cleaning changes nothing exactly when the fragment already satisfies
      the policy: the clean step is a projection onto safe fragments. */
  lemma {:induction false} CleanFixpointIffSafe(ns: seq<Node>)
    ensures Clean(ns) == ns <==> Safe(ns)
    decreases ns
  {
    if Safe(ns) && ns != [] {
      CleanFixpointIffSafe(ns[1..]);
      match ns[0]
      case Text(_) =>
      case Element(tag, attrs, kids) =>
        CleanFixpointIffSafe(kids);
        assert FilterAttrs(tag, attrs) == attrs;
    }
  }

  /** Cleaning twice is cleaning once. */
  lemma CleanIdempotent(ns: seq<Node>)
    ensures Clean(Clean(ns)) == Clean(ns)
  {
    CleanFixpointIffSafe(Clean(ns));
  }

  /** No `script` element survives cleaning, whatever the input holds. */
  lemma CleanRemovesScript(ns: seq<Node>)
    ensures "script" !in ElementTags(Clean(ns))
  {
    SafeMeaning(Clean(ns));
    assert "script" !in AllowedTags;
  }

  /** Every attribute that survives cleaning is listed for its element's tag
      (so a tag the table does not mention keeps none), is not an event
      handler, and, if it is an `href`, has an allowed scheme. */
  lemma CleanKeepsOnlyListedAttrs(ns: seq<Node>)
    ensures forall a :: a in Attributes(Clean(ns)) ==>
      && a.tag in AllowedAttrs
      && a.name in AllowedAttrs[a.tag]
      && !IsEventHandlerName(a.name)
      && (a.name == "href" ==> UriAllowed(a.value))
  {
    SafeMeaning(Clean(ns));
    forall a | a in Attributes(Clean(ns))
      ensures a.tag in AllowedAttrs && a.name in AllowedAttrs[a.tag]
      ensures !IsEventHandlerName(a.name)
      ensures a.name == "href" ==> UriAllowed(a.value)
    {
      assert AttrAllowed(a.tag, a.name, a.value);
      NoEventHandlerAllowed(a.tag, a.name);
    }
  }

  // ---------------------------------------------------------------------
  // Lemmas about URLs

  /** A URL that, once noise is removed, begins with a scheme name and a
      colon keeps its place exactly when that scheme, in lower case, is one
      of `http`, `https`, `mailto`; mixed case does not get a foreign scheme
      such as `javascript` past the check. */
  lemma SchemeDecides(value: string, scheme: string, rest: string)
    requires IsSchemeName(scheme)
    requires DropUriNoise(value) == scheme + [':'] + rest
    ensures UriAllowed(value) <==> Lower(scheme) in AllowedProtocols
  {
    var u := Lower(scheme + [':'] + rest);
    var ls := Lower(scheme);
    assert u[|scheme|] == ':';
    assert forall i :: 0 <= i < |scheme| ==> u[i] == ls[i];
    var n := SchemeRun(u);
    assert n == |scheme|;
    assert u[..n] == ls;
    assert IsAsciiLetter(u[0]);
    assert UriScheme(u) == Some(ls);
  }

  /** A link whose URL is refused keeps its element, its other listed
      attributes and its cleaned content, and loses only its `href`. */
  lemma RefusedLinkLosesHref(url: string, title: string, kids: seq<Node>)
    requires !UriAllowed(url)
    ensures Clean([Element("a", map["href" := url, "title" := title], kids)])
         == [Element("a", map["title" := title], Clean(kids))]
  {
    var attrs := map["href" := url, "title" := title];
    assert FilterAttrs("a", attrs) == map["title" := title];
    assert [Element("a", attrs, kids)][1..] == [];
  }

  /** Every `javascript:` URL is refused, in any mix of upper and lower
      case. */
  lemma JavascriptRefused(value: string, scheme: string, rest: string)
    requires DropUriNoise(value) == scheme + [':'] + rest
    requires Lower(scheme) == "javascript"
    ensures !UriAllowed(value)
  {
    assert IsSchemeName(scheme) by {
      forall i | 0 <= i < |scheme| ensures IsSchemeChar(scheme[i]) {
        assert Lower(scheme)[i] == LowerChar(scheme[i]);
      }
      assert Lower(scheme)[0] == LowerChar(scheme[0]);
    }
    SchemeDecides(value, scheme, rest);
  }

  /** A noise character anywhere in a URL does not change the verdict, so a
      tab or a newline cannot split a forbidden scheme past the check. */
  lemma NoiseIgnored(a: string, c: char, b: string)
    requires IsUriNoise(c)
    ensures UriAllowed(a + [c] + b) <==> UriAllowed(a + b)
  {
    DropUriNoiseAppend(a + [c], b);
    DropUriNoiseAppend(a, [c]);
    DropUriNoiseAppend(a, b);
    assert [c][1..] == [];
    assert DropUriNoise([c]) == [];
    assert DropUriNoise(a) + [] == DropUriNoise(a);
  }

  /** A URL whose first meaningful character is '/', '#' or '?' (a path, an
      anchor or a query) has no scheme and keeps its place. */
  lemma RelativeUrlKept(value: string)
    requires DropUriNoise(value) != []
    requires DropUriNoise(value)[0] in {'/', '#', '?'}
    ensures UriAllowed(value)
  {
    var u := Lower(DropUriNoise(value));
    assert u[0] == LowerChar(DropUriNoise(value)[0]);
    assert SchemeRun(u) == 0;
  }

  // ---------------------------------------------------------------------
  // Concrete cases

  /** `<strong>vet</strong>` passes through unchanged. */
  lemma StrongElementUnchanged()
    ensures Clean([Element("strong", map[], [Text("vet")])]) == [Element("strong", map[], [Text("vet")])]
  {
    var ns := [Element("strong", map[], [Text("vet")])];
    assert Safe([Text("vet")]);
    assert Safe(ns);
    CleanFixpointIffSafe(ns);
  }

  /** `<script>alert('xss');</script>` loses its tags; its text stays as
      plain text. */
  lemma ScriptStrippedTextKept()
    ensures Clean([Element("script", map[], [Text("alert('xss');")])]) == [Text("alert('xss');")]
  {
    StripSplicesChildren([], "script", map[], [Text("alert('xss');")], []);
    assert [] + [Element("script", map[], [Text("alert('xss');")])] + []
        == [Element("script", map[], [Text("alert('xss');")])];
  }

  /** `<img src=x onerror=alert(1)>` disappears entirely: `img` is not an
      allowed tag and has no content. */
  lemma ImageWithHandlerRemoved()
    ensures Clean([Element("img", map["src" := "x", "onerror" := "alert(1)"], [])]) == []
  {
  }
}
