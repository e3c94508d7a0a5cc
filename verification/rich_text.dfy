/**
 The decisions the rich-text renderer makes before it emits any markup: the
 `cn` class-name combiner, the href/target/rel of links, the wrappers a text
 node's format bitmask puts around its text and their nesting order, whether
 a list is ordered, which style a heading gets, when inline code renders at
 all, and which highlighter language a code block asks for. The emitted
 markup itself is represented by small trees (`Inline`) or plain values.
 */
module RichText {
  import opened JsValues
  import opened JsStrings

  // ---------------------------------------------------------------------
  // cn

  /** One argument of `cn`: a class name, a boolean, `undefined` (or `null`),
      or an object mapping class names to whether they apply, in property
      order; as in any object, its keys are distinct. */
  datatype ClassArg = ClassName(name: string) | Flag(on: bool) | NoClass | Toggles(entries: seq<(string, bool)>)

  /** The keys of an object argument whose value is true. */
  function OnKeys(entries: seq<(string, bool)>): (r: seq<string>)
    ensures |r| <= |entries|
    ensures forall k :: k in r <==> exists i :: 0 <= i < |entries| && entries[i] == (k, true)
  {
    if |entries| == 0 then []
    else
      var rest := OnKeys(entries[1..]);
      assert forall i :: 1 <= i < |entries| ==> entries[i] == entries[1..][i - 1];
      (if entries[0].1 then [entries[0].0] else []) + rest
  }

  /** The class names one argument contributes. */
  function ArgClasses(arg: ClassArg): seq<string> {
    match arg
    case ClassName(name) => [name]
    case Toggles(entries) => OnKeys(entries)
    case _ => []
  }

  /** The class names `cn` collects, in argument order. */
  function Classes(args: seq<ClassArg>): seq<string> {
    if |args| == 0 then [] else ArgClasses(args[0]) + Classes(args[1..])
  }

  /** `xs.join(' ')`. */
  function JoinSpace(xs: seq<string>): string {
    if |xs| == 0 then ""
    else if |xs| == 1 then xs[0]
    else xs[0] + " " + JoinSpace(xs[1..])
  }

  /** `cn(...args)`. */
  function Cn(args: seq<ClassArg>): string {
    JoinSpace(Classes(args))
  }

  /** `cn` is compositional: the classes of a longer argument list are those
      of its parts, in order; booleans and `undefined` add nothing. */
  lemma {:induction false} ClassesAppend(a: seq<ClassArg>, b: seq<ClassArg>)
    ensures Classes(a + b) == Classes(a) + Classes(b)
  {
    if |a| > 0 {
      assert (a + b)[0] == a[0];
      assert (a + b)[1..] == a[1..] + b;
      ClassesAppend(a[1..], b);
    } else {
      assert a + b == b;
    }
  }

  lemma ClassesOfOne(arg: ClassArg)
    ensures arg.ClassName? ==> Classes([arg]) == [arg.name]
    ensures arg.Toggles? ==> Classes([arg]) == OnKeys(arg.entries)
    ensures arg.Flag? || arg.NoClass? ==> Classes([arg]) == []
  {
    assert Classes([arg]) == ArgClasses(arg) + [];
  }

  /** `s.split(' ')`. */
  function SplitSpace(s: string): (r: seq<string>)
    ensures |r| >= 1
  {
    if |s| == 0 then [""]
    else
      var rest := SplitSpace(s[1..]);
      if s[0] == ' ' then [""] + rest else [[s[0]] + rest[0]] + rest[1..]
  }

  predicate NoBlank(s: string) {
    forall i :: 0 <= i < |s| ==> s[i] != ' '
  }

  lemma {:induction false} SplitWordPrefix(w: string, t: string)
    requires NoBlank(w)
    ensures SplitSpace(w + t) == [w + SplitSpace(t)[0]] + SplitSpace(t)[1..]
  {
    if |w| > 0 {
      assert (w + t)[0] == w[0];
      assert (w + t)[1..] == w[1..] + t;
      SplitWordPrefix(w[1..], t);
      assert [w[0]] + (w[1..] + SplitSpace(t)[0]) == w + SplitSpace(t)[0];
    } else {
      var parts := SplitSpace(t);
      assert w + t == t;
      assert w + parts[0] == parts[0];
      assert parts == [parts[0]] + parts[1..];
    }
  }

  /** Splitting the combined class string on spaces gives back the collected
      class names whenever none of them contains a space. */
  lemma {:induction false} SplitJoinSpace(xs: seq<string>)
    requires |xs| >= 1
    requires forall i :: 0 <= i < |xs| ==> NoBlank(xs[i])
    ensures SplitSpace(JoinSpace(xs)) == xs
  {
    if |xs| == 1 {
      SplitWordPrefix(xs[0], "");
      assert xs[0] + "" == xs[0];
    } else {
      var t := " " + JoinSpace(xs[1..]);
      assert JoinSpace(xs) == xs[0] + t;
      SplitWordPrefix(xs[0], t);
      SplitJoinSpace(xs[1..]);
      assert t[1..] == JoinSpace(xs[1..]);
      assert SplitSpace(t) == [""] + xs[1..];
      assert xs[0] + "" == xs[0];
      assert xs == [xs[0]] + xs[1..];
    }
  }

  lemma CnRoundTrip(args: seq<ClassArg>)
    requires |Classes(args)| >= 1
    requires forall i :: 0 <= i < |Classes(args)| ==> NoBlank(Classes(args)[i])
    ensures SplitSpace(Cn(args)) == Classes(args)
  {
    SplitJoinSpace(Classes(args));
  }

  /** The arguments the renderer's root passes to `cn`. */
  function RootArgs(gutter: bool, prose: bool, className: Option<string>): seq<ClassArg> {
    [ClassName("payload-richtext"),
     Toggles([("container", gutter), ("max-w-none", !gutter), ("mx-auto", prose)]),
     if className.Some? then ClassName(className.value) else NoClass]
  }

  /** The class list of the renderer's root element; the gutter is on and
      prose is off unless the props say otherwise. */
  function RootClass(enableGutter: Option<bool>, enableProse: Option<bool>, className: Option<string>): string {
    Cn(RootArgs(enableGutter.GetOr(true), enableProse.GetOr(false), className))
  }

  lemma RootArgsClasses(gutter: bool, prose: bool, className: Option<string>)
    ensures Classes(RootArgs(gutter, prose, className))
         == ["payload-richtext", if gutter then "container" else "max-w-none"]
          + (if prose then ["mx-auto"] else [])
          + (if className.Some? then [className.value] else [])
  {
    var p: seq<string> := if prose then ["mx-auto"] else [];
    var extra: seq<string> := if className.Some? then [className.value] else [];
    var g := if gutter then "container" else "max-w-none";
    RootToggles(gutter, prose);
    var args := RootArgs(gutter, prose, className);
    assert args == [args[0]] + [args[1]] + [args[2]];
    ClassesAppend([args[0]] + [args[1]], [args[2]]);
    ClassesAppend([args[0]], [args[1]]);
    ClassesOfOne(args[0]);
    ClassesOfOne(args[1]);
    ClassesOfOne(args[2]);
    assert Classes(args) == Classes([args[0]]) + Classes([args[1]]) + Classes([args[2]]);
    assert Classes([args[0]]) == ["payload-richtext"];
    assert Classes([args[1]]) == [g] + p;
    assert Classes([args[2]]) == extra;
    Regroup("payload-richtext", g, p, extra);
  }

  /** The toggles of the root pick exactly one of the two gutter classes. */
  lemma RootToggles(gutter: bool, prose: bool)
    ensures OnKeys([("container", gutter), ("max-w-none", !gutter), ("mx-auto", prose)])
         == [if gutter then "container" else "max-w-none"] + (if prose then ["mx-auto"] else [])
  {
    var toggles := [("container", gutter), ("max-w-none", !gutter), ("mx-auto", prose)];
    assert OnKeys(toggles[2..]) == (if prose then ["mx-auto"] else []) + OnKeys(toggles[3..]);
    assert OnKeys(toggles[1..]) == (if gutter then [] else ["max-w-none"]) + OnKeys(toggles[2..]);
  }

  lemma Regroup<T>(x: T, y: T, p: seq<T>, e: seq<T>)
    ensures [x] + ([y] + p) + e == [x, y] + p + e
  {
  }

  /** The root always carries `payload-richtext` first, then exactly one of
      `container` (gutter on, the default) and `max-w-none` (gutter off),
      then `mx-auto` when prose is on, then the caller's class. */
  lemma RootClassShape(enableGutter: Option<bool>, enableProse: Option<bool>, className: Option<string>)
    ensures RootClass(enableGutter, enableProse, className)
         == JoinSpace(["payload-richtext", if enableGutter != Some(false) then "container" else "max-w-none"]
                      + (if enableProse == Some(true) then ["mx-auto"] else [])
                      + (if className.Some? then [className.value] else []))
  {
    RootArgsClasses(enableGutter.GetOr(true), enableProse.GetOr(false), className);
  }

  // ---------------------------------------------------------------------
  // Links

  /** `fields.doc`: the linked document (or its bare id) and its collection. */
  datatype DocRef = DocRef(value: Value, relationTo: Value)

  /** The `fields` of a link node. */
  datatype LinkFields = LinkFields(doc: Option<DocRef>, url: Value, newTab: Value)

  datatype LinkAttrs = LinkAttrs(href: string, target: Option<string>, rel: Option<string>)

  /** The outcome of `internalDocToHref`: a path, or one of its two exceptions. */
  datatype HrefResult = Href(path: string) | NotAnObject | ReadOfNull

  const PostsCollection := "posts"

  /** `relationTo === 'posts' ? `/posts/${slug}` : `/${slug}``. */
  function DocPath(relationTo: Value, slug: Value): string {
    if StrictEquals(relationTo, Str(PostsCollection)) then "/posts/" + ToString(slug)
    else "/" + ToString(slug)
  }

  /** `typeof v === 'object'`, which holds for `null` as well. */
  predicate IsObjectType(v: Value) {
    v.Null? || v.Arr? || v.Obj?
  }

  /** `internalDocToHref`: the path of a linked document given as an object;
      any other value is refused with an exception, and `null` throws when
      its slug is read. */
  function InternalDocToHref(doc: DocRef): HrefResult {
    if !IsObjectType(doc.value) then NotAnObject
    else if doc.value.Null? then ReadOfNull
    else Href(DocPath(doc.relationTo, OptionalGet(doc.value, "slug")))
  }

  /** The link converter's href: an internal document link when the document
      value is present (its `slug` when it is an object, the value itself
      otherwise), else the external url when present, else `#`. */
  function LinkHref(fields: Option<LinkFields>): string {
    if fields.Some? && fields.value.doc.Some? && Truthy(fields.value.doc.value.value) then
      var doc := fields.value.doc.value;
      var slug := if IsObjectType(doc.value) then OptionalGet(doc.value, "slug") else doc.value;
      DocPath(doc.relationTo, slug)
    else if fields.Some? && Truthy(fields.value.url) then ToString(fields.value.url)
    else "#"
  }

  function Link(fields: Option<LinkFields>): LinkAttrs {
    var newTab := fields.Some? && Truthy(fields.value.newTab);
    LinkAttrs(LinkHref(fields),
              if newTab then Some("_blank") else None,
              if newTab then Some("noopener noreferrer") else None)
  }

  /** The link converter and `internalDocToHref` agree on every document
      given as an object; for a bare id the converter builds the path from
      the id itself, where `internalDocToHref` throws. */
  lemma LinkAgreesWithInternalDocToHref(fields: LinkFields)
    requires fields.doc.Some?
    ensures var doc := fields.doc.value;
      && (doc.value.Obj? || doc.value.Arr? ==>
            InternalDocToHref(doc) == Href(LinkHref(Some(fields))))
      && (Truthy(doc.value) && !IsObjectType(doc.value) ==>
            InternalDocToHref(doc) == NotAnObject
            && LinkHref(Some(fields)) == DocPath(doc.relationTo, doc.value))
  {
  }

  /** Where a link points: a document link goes to `/posts/<slug>` for a
      post and to `/<slug>` for any other collection, the slug being the
      document's `slug` field when the document is an object and the value
      itself otherwise; without a document the url is used, and without
      either the link points at `#`. Target and
      rel are set together, exactly when `newTab` is truthy. */
  lemma LinkResolution(fields: Option<LinkFields>)
    ensures var a := Link(fields);
      && (fields.Some? && fields.value.doc.Some? && Truthy(fields.value.doc.value.value) ==>
            var v := fields.value.doc.value.value;
            var slug := if IsObjectType(v) then OptionalGet(v, "slug") else v;
            if StrictEquals(fields.value.doc.value.relationTo, Str(PostsCollection))
            then a.href == "/posts/" + ToString(slug) else a.href == "/" + ToString(slug))
      && (!(fields.Some? && fields.value.doc.Some? && Truthy(fields.value.doc.value.value)) ==>
            if fields.Some? && Truthy(fields.value.url) then a.href == ToString(fields.value.url)
            else a.href == "#")
      && (a.target.Some? <==> fields.Some? && Truthy(fields.value.newTab))
      && (a.target.Some? <==> a.rel.Some?)
      && (a.target.Some? ==> a.target.value == "_blank" && a.rel.value == "noopener noreferrer")
  {
  }

  // ---------------------------------------------------------------------
  // Text formats

  /** A rendered text node: the text inside its format wrappers inside the
      outer span. */
  datatype Inline =
    | Plain(text: string)
    | Strong(inner: Inline)
    | Em(inner: Inline)
    | Del(inner: Inline)
    | U(inner: Inline)
    | Span(inner: Inline)

  datatype Wrapper = StrongTag | EmTag | DelTag | UTag

  const FormatBold := 1
  const FormatItalic := 2
  const FormatStrikethrough := 4
  const FormatUnderline := 8

  /** `(format & mask) !== 0` for a one-bit mask below 2^31. The `&` operator
      works on the 32-bit two's-complement form of the number, whose low bits
      are those of the floor quotient taken here, negative numbers included. */
  predicate HasBit(format: int, mask: nat)
    requires mask > 0
  {
    (format / mask) % 2 == 1
  }

  function WrapIf(on: bool, w: Wrapper, content: Inline): Inline {
    if !on then content
    else match w
      case StrongTag => Strong(content)
      case EmTag => Em(content)
      case DelTag => Del(content)
      case UTag => U(content)
  }

  /** The text converter: `text || ''` wrapped in strong, em, del and u, in
      that order from the inside out, each when its bit of `format || 0` is
      set, and always in the outer span. */
  function RenderText(text: Option<string>, format: Option<int>): Inline {
    var t := text.GetOr("");
    var f := format.GetOr(0);
    var c1 := WrapIf(HasBit(f, FormatBold), StrongTag, Plain(t));
    var c2 := WrapIf(HasBit(f, FormatItalic), EmTag, c1);
    var c3 := WrapIf(HasBit(f, FormatStrikethrough), DelTag, c2);
    var c4 := WrapIf(HasBit(f, FormatUnderline), UTag, c3);
    Span(c4)
  }

  /** The wrappers of a tree, outermost first, below the span. */
  function WrappersOf(i: Inline): seq<Wrapper> {
    match i
    case Plain(_) => []
    case Strong(x) => [StrongTag] + WrappersOf(x)
    case Em(x) => [EmTag] + WrappersOf(x)
    case Del(x) => [DelTag] + WrappersOf(x)
    case U(x) => [UTag] + WrappersOf(x)
    case Span(x) => WrappersOf(x)
  }

  /** The text at the core of a tree. */
  function TextOf(i: Inline): string {
    match i
    case Plain(t) => t
    case Strong(x) => TextOf(x)
    case Em(x) => TextOf(x)
    case Del(x) => TextOf(x)
    case U(x) => TextOf(x)
    case Span(x) => TextOf(x)
  }

  function BitValue(w: Wrapper): nat {
    match w
    case StrongTag => FormatBold
    case EmTag => FormatItalic
    case DelTag => FormatStrikethrough
    case UTag => FormatUnderline
  }

  /** The format a tree's wrappers stand for. */
  function FormatOf(ws: seq<Wrapper>): nat {
    if |ws| == 0 then 0 else BitValue(ws[0]) + FormatOf(ws[1..])
  }

  /** Each wrapper is present exactly when its bit is set, and they nest
      u outside del outside em outside strong; the text is kept. */
  lemma RenderTextWrappers(text: Option<string>, format: Option<int>)
    ensures var f := format.GetOr(0);
      && RenderText(text, format).Span?
      && TextOf(RenderText(text, format)) == text.GetOr("")
      && WrappersOf(RenderText(text, format))
           == (if HasBit(f, FormatUnderline) then [UTag] else [])
            + (if HasBit(f, FormatStrikethrough) then [DelTag] else [])
            + (if HasBit(f, FormatItalic) then [EmTag] else [])
            + (if HasBit(f, FormatBold) then [StrongTag] else [])
  {
    var t := text.GetOr("");
    var f := format.GetOr(0);
    var c1 := WrapIf(HasBit(f, FormatBold), StrongTag, Plain(t));
    var c2 := WrapIf(HasBit(f, FormatItalic), EmTag, c1);
    var c3 := WrapIf(HasBit(f, FormatStrikethrough), DelTag, c2);
    var c4 := WrapIf(HasBit(f, FormatUnderline), UTag, c3);
    WrapIfStep(HasBit(f, FormatBold), StrongTag, Plain(t));
    WrapIfStep(HasBit(f, FormatItalic), EmTag, c1);
    WrapIfStep(HasBit(f, FormatStrikethrough), DelTag, c2);
    WrapIfStep(HasBit(f, FormatUnderline), UTag, c3);
    assert RenderText(text, format) == Span(c4);
    Regroup4(if HasBit(f, FormatUnderline) then [UTag] else [],
             if HasBit(f, FormatStrikethrough) then [DelTag] else [],
             if HasBit(f, FormatItalic) then [EmTag] else [],
             if HasBit(f, FormatBold) then [StrongTag] else []);
  }

  lemma Regroup4<T>(a: seq<T>, b: seq<T>, c: seq<T>, d: seq<T>)
    ensures a + (b + (c + (d + []))) == a + b + c + d
  {
    assert d + [] == d;
  }

  /** One conditional wrapper adds itself, outermost, and keeps the text. */
  lemma WrapIfStep(on: bool, w: Wrapper, c: Inline)
    ensures WrappersOf(WrapIf(on, w, c)) == (if on then [w] else []) + WrappersOf(c)
    ensures TextOf(WrapIf(on, w, c)) == TextOf(c)
  {
  }

  /** The format value of the wrappers the four bits select. */
  lemma FormatOfBits(u: bool, d: bool, e: bool, b: bool)
    ensures FormatOf((if u then [UTag] else []) + (if d then [DelTag] else [])
                     + (if e then [EmTag] else []) + (if b then [StrongTag] else []))
         == (if u then 8 else 0) + (if d then 4 else 0) + (if e then 2 else 0) + (if b then 1 else 0)
  {
    var su: seq<Wrapper> := if u then [UTag] else [];
    var sd: seq<Wrapper> := if d then [DelTag] else [];
    var se: seq<Wrapper> := if e then [EmTag] else [];
    var sb: seq<Wrapper> := if b then [StrongTag] else [];
    FormatOfAppend(su + sd + se, sb);
    FormatOfAppend(su + sd, se);
    FormatOfAppend(su, sd);
  }

  /** Reading the format back from the rendered tree gives the low four bits
      of the format. */
  lemma RenderTextFormatRoundTrip(text: Option<string>, format: Option<int>)
    ensures FormatOf(WrappersOf(RenderText(text, format))) == format.GetOr(0) % 16
  {
    var f := format.GetOr(0);
    LowBits(f);
    RenderTextWrappers(text, format);
    FormatOfBits(HasBit(f, FormatUnderline), HasBit(f, FormatStrikethrough),
                 HasBit(f, FormatItalic), HasBit(f, FormatBold));
  }

  /** Every bit above the fourth is ignored. */
  lemma RenderTextHighBitsIgnored(text: Option<string>, format: Option<int>)
    ensures RenderText(text, format) == RenderText(text, Some(format.GetOr(0) % 16))
  {
    LowBits(format.GetOr(0));
  }

  lemma {:induction false} FormatOfAppend(a: seq<Wrapper>, b: seq<Wrapper>)
    ensures FormatOf(a + b) == FormatOf(a) + FormatOf(b)
  {
    if |a| > 0 {
      assert (a + b)[0] == a[0];
      assert (a + b)[1..] == a[1..] + b;
      FormatOfAppend(a[1..], b);
    } else {
      assert a + b == b;
    }
  }

  /** Adding an even number keeps the parity. */
  lemma EvenShiftParity(a: int, b: int)
    ensures (2 * a + b) % 2 == b % 2
  {
    assert (2 * a + b) / 2 == a + b / 2;
    assert (2 * a + b) % 2 == 2 * a + b - 2 * ((2 * a + b) / 2);
    assert b % 2 == b - 2 * (b / 2);
  }

  /** Each of the four low bits of a number is that bit of its remainder
      modulo 16. */
  lemma LowBit(f: int, mask: nat)
    requires mask == 1 || mask == 2 || mask == 4 || mask == 8
    ensures HasBit(f, mask) == HasBit(f % 16, mask)
  {
    var q, r := f / 16, f % 16;
    assert f == 16 * q + r;
    if mask == 1 {
      EvenShiftParity(8 * q, r);
    } else if mask == 2 {
      assert f / 2 == 8 * q + r / 2;
      EvenShiftParity(4 * q, r / 2);
    } else if mask == 4 {
      assert f / 4 == 4 * q + r / 4;
      EvenShiftParity(2 * q, r / 4);
    } else {
      assert f / 8 == 2 * q + r / 8;
      EvenShiftParity(q, r / 8);
    }
  }

  /** A number below 16 is the weighted sum of its four bits. */
  lemma BitsBelowSixteen(r: int)
    requires 0 <= r < 16
    ensures r == (if HasBit(r, 1) then 1 else 0) + (if HasBit(r, 2) then 2 else 0)
               + (if HasBit(r, 4) then 4 else 0) + (if HasBit(r, 8) then 8 else 0)
  {
  }

  /** The four low bits of a number are those of its remainder modulo 16,
      and that remainder is their weighted sum. */
  lemma LowBits(f: int)
    ensures HasBit(f, 1) == HasBit(f % 16, 1)
    ensures HasBit(f, 2) == HasBit(f % 16, 2)
    ensures HasBit(f, 4) == HasBit(f % 16, 4)
    ensures HasBit(f, 8) == HasBit(f % 16, 8)
    ensures f % 16 == (if HasBit(f, 1) then 1 else 0) + (if HasBit(f, 2) then 2 else 0)
                    + (if HasBit(f, 4) then 4 else 0) + (if HasBit(f, 8) then 8 else 0)
  {
    LowBit(f, 1);
    LowBit(f, 2);
    LowBit(f, 4);
    LowBit(f, 8);
    BitsBelowSixteen(f % 16);
  }

  // ---------------------------------------------------------------------
  // Lists, headings, inline code and code blocks

  /** The list node fields the converter inspects. */
  datatype ListNode = ListNode(listType: Value, tag: Value, nodeType: Value, ordered: Value)

  datatype ListElement = Ol | Ul

  predicate IsOrderedList(n: ListNode) {
    || StrictEquals(n.listType, Str("number"))
    || StrictEquals(n.listType, Str("ordered"))
    || StrictEquals(n.tag, Str("ol"))
    || StrictEquals(n.nodeType, Str("numberedlist"))
    || StrictEquals(n.ordered, Bool(true))
  }

  function ListElementOf(n: ListNode): ListElement {
    if IsOrderedList(n) then Ol else Ul
  }

  /** A list node as the Lexical editor writes it: type `list`, list type
      `number` with tag `ol`, or `bullet`/`check` with tag `ul`, no `ordered`
      flag. */
  predicate LexicalList(n: ListNode) {
    && n.nodeType == Str("list")
    && n.ordered == Undefined
    && ((n.listType == Str("number") && n.tag == Str("ol"))
        || ((n.listType == Str("bullet") || n.listType == Str("check")) && n.tag == Str("ul")))
  }

  /** For the editor's own list nodes the converter agrees with the list
      type: numbered lists render as `ol`, bullet and check lists as `ul`;
      the other tests only widen it for foreign node shapes. */
  lemma LexicalListsAgree(n: ListNode)
    requires LexicalList(n)
    ensures ListElementOf(n) == Ol <==> n.listType == Str("number")
  {
  }

  /** An `ordered: true` flag, a `numberedlist` type or an `ol` tag orders a
      list whatever its list type says. */
  lemma OrderedOverridesListType(n: ListNode)
    requires n.ordered == Bool(true) || n.nodeType == Str("numberedlist") || n.tag == Str("ol")
    ensures ListElementOf(n) == Ol
  {
  }

  datatype HeadingLevel = H1 | H2 | H3 | H4 | H5 | H6

  function TagName(level: HeadingLevel): string {
    match level
    case H1 => "h1"
    case H2 => "h2"
    case H3 => "h3"
    case H4 => "h4"
    case H5 => "h5"
    case H6 => "h6"
  }

  /** The row of the heading style table used for a node's tag: its own row
      for `h1` to `h6`, the `h2` row for anything else. */
  function HeadingStyle(tag: Value): HeadingLevel {
    if tag == Str("h1") then H1
    else if tag == Str("h3") then H3
    else if tag == Str("h4") then H4
    else if tag == Str("h5") then H5
    else if tag == Str("h6") then H6
    else H2
  }

  /** Each of the six tags selects its own style row, and any other row than
      `h2` is selected only by its own tag: every unknown tag falls back to
      the `h2` row. */
  lemma HeadingStyleFallback(tag: Value)
    ensures forall l: HeadingLevel :: HeadingStyle(Str(TagName(l))) == l
    ensures HeadingStyle(tag) != H2 ==> tag == Str(TagName(HeadingStyle(tag)))
  {
    forall l: HeadingLevel ensures HeadingStyle(Str(TagName(l))) == l {
      var n := TagName(l);
      assert n[0] == 'h' && |n| == 2;
      assert "h1"[1] == '1' && "h3"[1] == '3' && "h4"[1] == '4' && "h5"[1] == '5' && "h6"[1] == '6';
    }
  }

  /** A code node's text: `text || children?.[0]?.text || ''`. */
  datatype CodeNode = CodeNode(text: Option<string>, firstChildText: Option<string>)

  function CodeText(n: CodeNode): string {
    if n.text.Some? && n.text.value != "" then n.text.value
    else if n.firstChildText.Some? && n.firstChildText.value != "" then n.firstChildText.value
    else ""
  }

  /** Inline code: nothing for empty or blank text, else the text as it is. */
  function InlineCode(n: CodeNode): Option<string> {
    var text := CodeText(n);
    if text == "" || Trim(text) == "" then None else Some(text)
  }

  /** Inline code renders nothing exactly when its text is empty or all
      white space, and otherwise renders the text untrimmed. */
  lemma InlineCodeGuard(n: CodeNode)
    ensures InlineCode(n).None? <==> AllSpace(CodeText(n))
    ensures InlineCode(n).Some? ==> InlineCode(n).value == CodeText(n)
  {
    TrimEmptyIffAllSpace(CodeText(n));
  }

  /** The highlighter language of a code block: `markup` when none is given,
      otherwise the lower-cased language with `html` folded into `markup`
      and `js` spelled out as `javascript`. */
  function PrismLanguage(language: Option<string>): string {
    var raw := language.GetOr("");
    var lang := ToLower(if raw != "" then raw else "markup");
    if lang == "html" || lang == "markup" then "markup"
    else if lang == "js" then "javascript"
    else lang
  }

  /** The language is never empty, never `html` or `js` and never upper
      case: missing languages become `markup`, `html` becomes `markup`, `js`
      becomes `javascript`, and every other language passes through
      lower-cased. */
  lemma PrismLanguageCases(language: Option<string>)
    ensures var p := PrismLanguage(language);
      var lang := ToLower(language.GetOr(""));
      && p != "" && p != "html" && p != "js"
      && NoUpper(p)
      && (language.GetOr("") == "" ==> p == "markup")
      && (lang == "html" || lang == "markup" ==> p == "markup")
      && (lang == "js" ==> p == "javascript")
      && (language.GetOr("") != "" && lang != "html" && lang != "markup" && lang != "js" ==> p == lang)
  {
  }

  /** Feeding the chosen language back in chooses it again. */
  lemma PrismLanguageIdempotent(language: Option<string>)
    ensures PrismLanguage(Some(PrismLanguage(language))) == PrismLanguage(language)
  {
    var raw := language.GetOr("");
    var p := PrismLanguage(language);
    if raw != "" {
      ToLowerIdempotent(raw);
    }
    assert ToLower("markup") == "markup";
    assert ToLower("javascript") == "javascript";
    assert p == "markup" || p == "javascript" || p == ToLower(raw);
  }
}
