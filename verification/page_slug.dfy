/**
 The `beforeChange` hook of the `pages` collection: when a page is created
 without a slug, the slug is derived from the title by lower-casing it,
 dropping every character other than `a-z`, `0-9`, white space and `-`,
 trimming, and replacing each run of white space by one `-`.
 */
module PageSlug {
  import opened JsValues
  import opened JsStrings

  datatype Operation = Create | Update

  /** The page data handed to the hook: title and slug, and the fields the
      hook passes through untouched. */
  datatype PageData = PageData(title: Option<string>, slug: Option<string>, content: Value, seo: Value)

  /** The characters `/[^a-z0-9\s-]/g` leaves in place. */
  predicate Allowed(c: char) {
    IsLower(c) || IsDigit(c) || IsSpace(c) || c == '-'
  }

  /** The characters a generated slug is made of. */
  predicate SlugChar(c: char) {
    IsLower(c) || IsDigit(c) || c == '-'
  }

  /** `s.replace(/[^a-z0-9\s-]/g, '')`. */
  function DropDisallowed(s: string): (r: string)
    ensures forall i :: 0 <= i < |r| ==> Allowed(r[i])
    ensures (forall i :: 0 <= i < |s| ==> Allowed(s[i])) ==> r == s
  {
    if |s| == 0 then ""
    else
      var rest := DropDisallowed(s[1..]);
      if Allowed(s[0]) then [s[0]] + rest else rest
  }

  /** The filter works character by character: a single character survives
      exactly when it is allowed, and a concatenation keeps what each part
      keeps, in order. Together these fix the result as the allowed
      characters of the input in their original order. */
  lemma {:induction false} DropDisallowedPiecewise(a: string, b: string, c: char)
    ensures DropDisallowed([c]) == if Allowed(c) then [c] else []
    ensures DropDisallowed(a + b) == DropDisallowed(a) + DropDisallowed(b)
  {
    assert [c][1..] == [];
    if |a| > 0 {
      assert (a + b)[0] == a[0];
      assert (a + b)[1..] == a[1..] + b;
      DropDisallowedPiecewise(a[1..], b, c);
    } else {
      assert a + b == b;
    }
  }

  /** `s.replace(/\s+/g, '-')`: each maximal run of white space becomes one
      `-`. Scanning left to right, a white-space character followed by
      another is dropped and the last one of a run becomes the `-`. */
  function DashRuns(s: string): (r: string)
    ensures NoSpace(r)
    ensures (forall i :: 0 <= i < |s| ==> Allowed(s[i])) ==> forall i :: 0 <= i < |r| ==> SlugChar(r[i])
  {
    if |s| == 0 then ""
    else if IsSpace(s[0]) && |s| > 1 && IsSpace(s[1]) then DashRuns(s[1..])
    else (if IsSpace(s[0]) then "-" else [s[0]]) + DashRuns(s[1..])
  }

  /** The slug the hook derives from a title. */
  function Slugify(title: string): string {
    DashRuns(Trim(DropDisallowed(ToLower(title))))
  }

  /** The hook: a slug is generated only for a create without a slug and
      with a title; the rest of the data is passed on as it came. */
  function BeforeChange(data: PageData, op: Operation): PageData {
    if op == Create && !(data.slug.Some? && data.slug.value != "")
       && data.title.Some? && data.title.value != ""
    then data.(slug := Some(Slugify(data.title.value)))
    else data
  }

  /** The hook sets the slug exactly when the page is being created, has no
      slug and has a title, and then changes nothing but the slug. */
  lemma BeforeChangeIff(data: PageData, op: Operation)
    ensures var r := BeforeChange(data, op);
      && (r != data <==>
            op == Create && data.slug.GetOr("") == "" && data.title.GetOr("") != ""
            && data.slug != Some(Slugify(data.title.value)))
      && r.title == data.title && r.content == data.content && r.seo == data.seo
      && (r.slug != data.slug ==> r.slug == Some(Slugify(data.title.value)))
  {
  }

  /** A generated slug is made of lower-case ASCII letters, digits and `-`. */
  lemma SlugAlphabet(title: string)
    ensures forall i :: 0 <= i < |Slugify(title)| ==> SlugChar(Slugify(title)[i])
  {
    TrimKeepsAllowed(DropDisallowed(ToLower(title)));
  }

  lemma TrimKeepsAllowed(f: string)
    requires forall i :: 0 <= i < |f| ==> Allowed(f[i])
    ensures forall i :: 0 <= i < |Trim(f)| ==> Allowed(Trim(f)[i])
  {
    var u := TrimStart(f);
    var t := TrimEnd(u);
    forall i | 0 <= i < |t| ensures Allowed(t[i]) {
      assert t[i] == u[i] == f[|f| - |u| + i];
    }
  }

  // ---------------------------------------------------------------------
  // A reference definition: the slug is the title's words joined by `-`.

  /** The longest prefix of `s` without white space. */
  function TakeWord(s: string): (r: string)
    ensures |r| <= |s| && r == s[..|r|]
    ensures NoSpace(r)
    ensures |r| < |s| ==> IsSpace(s[|r|])
  {
    if |s| == 0 || IsSpace(s[0]) then "" else [s[0]] + TakeWord(s[1..])
  }

  /** The maximal white-space-free pieces of `s`, in order. */
  function Words(s: string): seq<string>
    decreases |s|
  {
    if |s| == 0 then []
    else if IsSpace(s[0]) then Words(s[1..])
    else
      var w := TakeWord(s);
      assert |w| > 0;
      [w] + Words(s[|w|..])
  }

  /** The pieces joined with one `-` between neighbours. */
  function JoinDash(ws: seq<string>): string {
    if |ws| == 0 then ""
    else if |ws| == 1 then ws[0]
    else ws[0] + "-" + JoinDash(ws[1..])
  }

  /** The generated slug is the filtered, lower-cased title's words joined
      by single hyphens: every maximal run of white space between two words
      becomes exactly one `-`, and leading or trailing white space leaves no
      trace. */
  lemma SlugIsJoinedWords(title: string)
    ensures Slugify(title) == JoinDash(Words(DropDisallowed(ToLower(title))))
  {
    var f := DropDisallowed(ToLower(title));
    TrimKeepsWords(f);
    TrimmedEnds(f);
    DashRunsJoinsWords(Trim(f));
  }

  lemma TrimmedEnds(s: string)
    ensures |Trim(s)| > 0 ==> !IsSpace(Trim(s)[0]) && !IsSpace(Trim(s)[|Trim(s)| - 1])
  {
    var u := TrimStart(s);
    var t := TrimEnd(u);
    if |t| > 0 {
      assert t[0] == u[0];
    }
  }

  lemma {:induction false} WordsTrimStart(s: string)
    ensures Words(TrimStart(s)) == Words(s)
    decreases |s|
  {
    if |s| > 0 && IsSpace(s[0]) {
      WordsTrimStart(s[1..]);
    }
  }

  lemma {:induction false} TakeWordAppendSpace(a: string, b: string)
    requires |b| == 0 || IsSpace(b[0])
    ensures TakeWord(a + b) == TakeWord(a)
  {
    if |a| > 0 && !IsSpace(a[0]) {
      assert (a + b)[1..] == a[1..] + b;
      TakeWordAppendSpace(a[1..], b);
    } else if |a| == 0 {
      assert a + b == b;
    }
  }

  lemma {:induction false} WordsAppendSpace(a: string, b: string)
    requires AllSpace(b)
    ensures Words(a + b) == Words(a)
    decreases |a| + |b|
  {
    if |a| == 0 {
      assert a + b == b;
      WordsAllSpace(b);
    } else if IsSpace(a[0]) {
      assert (a + b)[1..] == a[1..] + b;
      WordsAppendSpace(a[1..], b);
    } else {
      TakeWordAppendSpace(a, b);
      var w := TakeWord(a);
      assert (a + b)[|w|..] == a[|w|..] + b;
      WordsAppendSpace(a[|w|..], b);
    }
  }

  lemma {:induction false} WordsAllSpace(s: string)
    requires AllSpace(s)
    ensures Words(s) == []
    decreases |s|
  {
    if |s| > 0 {
      WordsAllSpace(s[1..]);
    }
  }

  lemma TrimKeepsWords(s: string)
    ensures Words(Trim(s)) == Words(s)
  {
    var u := TrimStart(s);
    var t := TrimEnd(u);
    assert u == t + u[|t|..];
    WordsAppendSpace(t, u[|t|..]);
    WordsTrimStart(s);
  }

  lemma {:induction false} DashRunsWord(w: string, y: string)
    requires NoSpace(w)
    ensures DashRuns(w + y) == w + DashRuns(y)
  {
    if |w| > 0 {
      assert DashRuns(w + y) == [w[0]] + DashRuns(w[1..] + y) by {
        var z := w + y;
        assert z[0] == w[0] && !IsSpace(z[0]);
        assert z[1..] == w[1..] + y;
      }
      DashRunsWord(w[1..], y);
      assert [w[0]] + (w[1..] + DashRuns(y)) == w + DashRuns(y);
    } else {
      assert w + y == y;
    }
  }

  /** A run of white space at the front becomes one `-`. */
  lemma {:induction false} DashRunsSpace(s: string)
    requires |s| > 0 && IsSpace(s[0])
    ensures DashRuns(s) == "-" + DashRuns(TrimStart(s))
    decreases |s|
  {
    if |s| > 1 && IsSpace(s[1]) {
      DashRunsSpace(s[1..]);
    }
  }

  lemma WordsCons(x: string)
    requires |x| > 0 && !IsSpace(x[0])
    ensures |TakeWord(x)| > 0
    ensures Words(x) == [TakeWord(x)] + Words(x[|TakeWord(x)|..])
  {
  }

  lemma JoinDashCons(w: string, ws: seq<string>)
    requires |ws| > 0
    ensures JoinDash([w] + ws) == w + "-" + JoinDash(ws)
  {
    assert ([w] + ws)[1..] == ws;
  }

  /** Trimming the front of a string that ends in a non-space character
      keeps that character last. */
  lemma {:induction false} TrimStartKeepsLast(s: string)
    requires |s| > 0 && !IsSpace(s[|s| - 1])
    ensures |TrimStart(s)| > 0 && TrimStart(s)[|TrimStart(s)| - 1] == s[|s| - 1]
    decreases |s|
  {
    if IsSpace(s[0]) {
      assert s[1..][|s| - 2] == s[|s| - 1];
      TrimStartKeepsLast(s[1..]);
    }
  }

  lemma AppendAssoc(a: string, b: string, c: string)
    ensures a + (b + c) == a + b + c
  {
  }

  lemma {:induction false} DashRunsJoinsWords(x: string)
    requires |x| > 0 ==> !IsSpace(x[0]) && !IsSpace(x[|x| - 1])
    ensures DashRuns(x) == JoinDash(Words(x))
    decreases |x|
  {
    if |x| > 0 {
      var w := TakeWord(x);
      var rest := x[|w|..];
      assert x == w + rest;
      DashRunsWord(w, rest);
      WordsCons(x);
      if |rest| > 0 {
        var y := TrimStart(rest);
        assert rest[|rest| - 1] == x[|x| - 1];
        TrimStartKeepsLast(rest);
        calc {
          DashRuns(x);
          w + DashRuns(rest);
          { DashRunsSpace(rest); }
          w + ("-" + DashRuns(y));
          { DashRunsJoinsWords(y); }
          w + ("-" + JoinDash(Words(y)));
          { AppendAssoc(w, "-", JoinDash(Words(y))); }
          w + "-" + JoinDash(Words(y));
          { WordsCons(y); JoinDashCons(w, Words(y)); }
          JoinDash([w] + Words(y));
          { WordsTrimStart(rest); }
          JoinDash([w] + Words(rest));
          JoinDash(Words(x));
        }
      } else {
        calc {
          DashRuns(x);
          w + DashRuns(rest);
          { assert w + "" == w; }
          JoinDash([w]);
          JoinDash(Words(x));
        }
      }
    }
  }

  // ---------------------------------------------------------------------
  // Letters and digits, and idempotence.

  /** The letters and digits of a string, in order. */
  function Alnum(s: string): string {
    if |s| == 0 then ""
    else (if IsLower(s[0]) || IsDigit(s[0]) then [s[0]] else "") + Alnum(s[1..])
  }

  lemma {:induction false} AlnumAppend(a: string, b: string)
    ensures Alnum(a + b) == Alnum(a) + Alnum(b)
  {
    if |a| > 0 {
      assert (a + b)[0] == a[0];
      assert (a + b)[1..] == a[1..] + b;
      AlnumAppend(a[1..], b);
    } else {
      assert a + b == b;
    }
  }

  lemma {:induction false} AlnumAllSpace(s: string)
    requires AllSpace(s)
    ensures Alnum(s) == ""
  {
    if |s| > 0 {
      AlnumAllSpace(s[1..]);
    }
  }

  lemma {:induction false} AlnumDropDisallowed(s: string)
    ensures Alnum(DropDisallowed(s)) == Alnum(s)
  {
    if |s| > 0 {
      AlnumDropDisallowed(s[1..]);
      if Allowed(s[0]) {
        AlnumAppend([s[0]], DropDisallowed(s[1..]));
      }
    }
  }

  /** Dropping white space from the front keeps the letters and digits. */
  lemma AlnumTrimStart(s: string)
    ensures Alnum(TrimStart(s)) == Alnum(s)
  {
    var u := TrimStart(s);
    var p := s[..|s| - |u|];
    assert s == p + u;
    AlnumAppend(p, u);
    AlnumAllSpace(p);
  }

  /** Dropping white space from the back keeps the letters and digits. */
  lemma AlnumTrimEnd(s: string)
    ensures Alnum(TrimEnd(s)) == Alnum(s)
  {
    var t := TrimEnd(s);
    var p := s[|t|..];
    assert s == t + p;
    AlnumAppend(t, p);
    AlnumAllSpace(p);
  }

  lemma AlnumTrim(s: string)
    ensures Alnum(Trim(s)) == Alnum(s)
  {
    AlnumTrimStart(s);
    AlnumTrimEnd(TrimStart(s));
  }

  lemma {:induction false} AlnumDashRuns(s: string)
    ensures Alnum(DashRuns(s)) == Alnum(s)
  {
    if |s| > 0 {
      AlnumDashRuns(s[1..]);
      if !(IsSpace(s[0]) && |s| > 1 && IsSpace(s[1])) {
        AlnumAppend(if IsSpace(s[0]) then "-" else [s[0]], DashRuns(s[1..]));
      }
    }
  }

  lemma SlugKeepsLettersAndDigits(title: string)
    ensures Alnum(Slugify(title)) == Alnum(ToLower(title))
  {
    var l := ToLower(title);
    var f := DropDisallowed(l);
    AlnumDashRuns(Trim(f));
    AlnumTrim(f);
    AlnumDropDisallowed(l);
  }

  /** Deriving a slug from a slug returns it unchanged. */
  lemma SlugIdempotent(title: string)
    ensures Slugify(Slugify(title)) == Slugify(title)
  {
    var s := Slugify(title);
    SlugAlphabet(title);
    assert ToLower(s) == s;
    assert DropDisallowed(s) == s;
    assert NoSpace(s);
    TrimNoSpace(s);
    DashRunsNoSpace(s);
  }

  lemma {:induction false} DashRunsNoSpace(s: string)
    requires NoSpace(s)
    ensures DashRuns(s) == s
  {
    if |s| > 0 {
      DashRunsNoSpace(s[1..]);
    }
  }
}
