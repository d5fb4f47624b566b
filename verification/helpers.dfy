/** The small utilities of the common layer: the paginated response
    builder, `slugify`, `truncateText`, `omit` and `pick`. */
module Helpers {
  import opened Wrappers
  import opened JsText

  // ---------------------------------------------------------------------
  // Paginated responses

  /** A JavaScript number that results from dividing two integers and taking
      the ceiling: a whole number, or one of the values a division by zero
      gives. */
  datatype JsNumber = Finite(n: int) | PosInfinity | NegInfinity | NaN

  /** `Math.ceil(total / perPage)`: the least whole `k` with
      `k * perPage >= total` for a positive `perPage`, the least `k` with
      `k * perPage <= total` for a negative one, and an infinity or NaN when
      `perPage` is zero. */
  function CeilQuotient(total: int, perPage: int): (q: JsNumber)
    ensures perPage > 0 ==> q.Finite? && q.n * perPage >= total && (q.n - 1) * perPage < total
    ensures perPage < 0 ==> q.Finite? && q.n * perPage <= total && (q.n - 1) * perPage > total
    ensures perPage == 0 ==>
      q == (if total > 0 then PosInfinity else if total < 0 then NegInfinity else NaN)
  {
    if perPage > 0 then
      var k := (total + perPage - 1) / perPage;
      CeilBounds(total, perPage, k);
      Finite(k)
    else if perPage < 0 then
      var k := (-total - perPage - 1) / -perPage;
      CeilBounds(-total, -perPage, k);
      Finite(k)
    else if total > 0 then PosInfinity
    else if total < 0 then NegInfinity
    else NaN
  }

  lemma CeilBounds(t: int, d: int, k: int)
    requires d > 0 && k == (t + d - 1) / d
    ensures k * d >= t && (k - 1) * d < t
  {
    var r := (t + d - 1) % d;
    assert t + d - 1 == k * d + r && 0 <= r < d;
    assert (k - 1) * d == k * d - d;
  }

  /** The ceiling is the number of pages: `k` pages of `perPage` hold
      `total` items exactly when `k` is at least the ceiling. */
  lemma {:induction false} CeilQuotientIsLeast(total: int, perPage: int, k: int)
    requires perPage > 0
    ensures k * perPage >= total <==> k >= CeilQuotient(total, perPage).n
  {
    var c := CeilQuotient(total, perPage).n;
    if k >= c {
      MulMonotone(c, k, perPage);
    } else {
      MulMonotone(k, c - 1, perPage);
    }
  }

  lemma MulMonotone(a: int, b: int, d: int)
    requires a <= b && d > 0
    ensures a * d <= b * d
  {
    assert b * d - a * d == (b - a) * d;
  }

  /** `IPaginationMeta`. */
  datatype PaginationMeta = PaginationMeta(page: int, perPage: int, total: int, totalPages: JsNumber)

  /** `IPaginatedResponse<T>`. */
  datatype PaginatedResponse<T> = PaginatedResponse(success: bool, data: seq<T>, meta: PaginationMeta)

  /** `createPaginatedResponse`: a successful response that carries `data`
      unchanged and copies the three counts into its metadata, with the page
      count the ceiling of `total / perPage`. */
  function CreatePaginatedResponse<T>(data: seq<T>, page: int, perPage: int, total: int): (r: PaginatedResponse<T>)
    ensures r.success && r.data == data
    ensures r.meta.page == page && r.meta.perPage == perPage && r.meta.total == total
    ensures perPage > 0 ==>
              && r.meta.totalPages.Finite?
              && r.meta.totalPages.n * perPage >= total
              && (r.meta.totalPages.n - 1) * perPage < total
    ensures perPage == 0 ==> !r.meta.totalPages.Finite?
  {
    PaginatedResponse(true, data, PaginationMeta(page, perPage, total, CeilQuotient(total, perPage)))
  }

  // ---------------------------------------------------------------------
  // slugify

  predicate IsAscii(s: string) {
    forall i :: 0 <= i < |s| ==> s[i] as int < 128
  }

  /** The regular-expression class `\w`. */
  predicate IsWordChar(c: char) {
    'a' <= c <= 'z' || 'A' <= c <= 'Z' || '0' <= c <= '9' || c == '_'
  }

  /** What `[^\w\s-]` does not match, so what the third step keeps. */
  predicate IsKept(c: char) {
    IsWordChar(c) || IsJsWhitespace(c) || c == '-'
  }

  /** The class `[\s_]` whose runs the fourth step turns into one hyphen. */
  predicate IsSeparator(c: char) {
    IsJsWhitespace(c) || c == '_'
  }

  predicate IsHyphen(c: char) {
    c == '-'
  }

  /** The characters a slug is made of. */
  predicate IsSlugChar(c: char) {
    'a' <= c <= 'z' || '0' <= c <= '9' || c == '-'
  }

  lemma SlugCharIsPlain(c: char)
    requires IsSlugChar(c)
    ensures IsKept(c) && !IsSeparator(c) && !IsJsWhitespace(c) && c as int < 128
    ensures ToLowerAscii(c) == c
  {
  }

  /** A string `slugify` can return: slug characters only, neither starting
      nor ending with a hyphen. */
  predicate IsSlug(s: string) {
    (forall c :: c in s ==> IsSlugChar(c)) && (s != [] ==> s[0] != '-' && s[|s| - 1] != '-')
  }

  /** The lower-case letters and digits: the characters of a text that a
      slug keeps. */
  predicate IsLowerAlnum(c: char) {
    'a' <= c <= 'z' || '0' <= c <= '9'
  }

  /** The lower-case letters and digits of `s`, in order. */
  function LettersAndDigits(s: string): (r: string)
    ensures |r| <= |s|
  {
    if s == [] then []
    else (if IsLowerAlnum(s[0]) then [s[0]] else []) + LettersAndDigits(s[1..])
  }

  lemma {:induction false} LettersAndDigitsAppend(a: string, b: string)
    ensures LettersAndDigits(a + b) == LettersAndDigits(a) + LettersAndDigits(b)
  {
    if a == [] {
      assert a + b == b;
    } else {
      var head := if IsLowerAlnum(a[0]) then [a[0]] else [];
      var ab := a + b;
      assert ab[0] == a[0] && ab[1..] == a[1..] + b;
      LettersAndDigitsAppend(a[1..], b);
      calc {
        LettersAndDigits(ab);
        head + LettersAndDigits(a[1..] + b);
        head + (LettersAndDigits(a[1..]) + LettersAndDigits(b));
        (head + LettersAndDigits(a[1..])) + LettersAndDigits(b);
        LettersAndDigits(a) + LettersAndDigits(b);
      }
    }
  }

  /** A string without letters or digits contributes none. */
  lemma {:induction false} LettersAndDigitsNone(s: string)
    requires forall i :: 0 <= i < |s| ==> !IsLowerAlnum(s[i])
    ensures LettersAndDigits(s) == []
  {
    if s != [] {
      assert !IsLowerAlnum(s[0]);
      assert forall i :: 0 <= i < |s[1..]| ==> s[1..][i] == s[i + 1];
      LettersAndDigitsNone(s[1..]);
    }
  }

  /** Cutting off a prefix that holds no letter or digit keeps every
      letter and digit. */
  lemma DropWordlessPrefix(s: string, i: int)
    requires 0 <= i <= |s|
    requires forall k :: 0 <= k < i ==> !IsLowerAlnum(s[k])
    ensures LettersAndDigits(s[i..]) == LettersAndDigits(s)
  {
    var head := s[..i];
    assert LettersAndDigits(head) == [] by {
      forall k | 0 <= k < |head| ensures !IsLowerAlnum(head[k]) {
        assert head[k] == s[k];
      }
      LettersAndDigitsNone(head);
    }
    assert s == head + s[i..];
    LettersAndDigitsAppend(head, s[i..]);
  }

  /** Cutting off a suffix that holds no letter or digit keeps every
      letter and digit. */
  lemma DropWordlessSuffix(s: string, i: int, j: int)
    requires 0 <= i <= j <= |s|
    requires forall k :: j <= k < |s| ==> !IsLowerAlnum(s[k])
    ensures LettersAndDigits(s[i..j]) == LettersAndDigits(s[i..])
  {
    var tail := s[j..];
    assert LettersAndDigits(tail) == [] by {
      forall k | 0 <= k < |tail| ensures !IsLowerAlnum(tail[k]) {
        assert tail[k] == s[j + k];
      }
      LettersAndDigitsNone(tail);
    }
    assert s[i..] == s[i..j] + tail;
    LettersAndDigitsAppend(s[i..j], tail);
  }

  /** Cutting off ends that hold no letter or digit keeps every letter and
      digit. */
  lemma LettersAndDigitsFrame(s: string, i: int, j: int)
    requires 0 <= i <= j <= |s|
    requires forall k :: 0 <= k < i ==> !IsLowerAlnum(s[k])
    requires forall k :: j <= k < |s| ==> !IsLowerAlnum(s[k])
    ensures LettersAndDigits(s[i..j]) == LettersAndDigits(s)
  {
    DropWordlessSuffix(s, i, j);
    DropWordlessPrefix(s, i);
  }

  /** `trim` removes only whitespace, so no letter or digit. */
  lemma TrimKeepsWords(s: string)
    ensures LettersAndDigits(Trim(s)) == LettersAndDigits(s)
  {
    var k := LeadingSpace(s);
    var r := Trim(s);
    assert forall m :: 0 <= m < k ==> IsJsWhitespace(s[m]);
    assert forall m :: k + |r| <= m < |s| ==> IsJsWhitespace(s[m]);
    LettersAndDigitsFrame(s, k, k + |r|);
  }

  /** Third step, `.replace(/[^\w\s-]/g, '')`: every other character is
      deleted, and the letters and digits all stay, in order. */
  function RemoveUnsafe(s: string): (r: string)
    ensures forall c :: c in r ==> c in s && IsKept(c)
    ensures forall c :: c in s && IsKept(c) ==> c in r
    ensures LettersAndDigits(r) == LettersAndDigits(s)
  {
    if s == [] then []
    else
      var head := if IsKept(s[0]) then [s[0]] else [];
      var rest := RemoveUnsafe(s[1..]);
      assert s == [s[0]] + s[1..];
      LettersAndDigitsAppend([s[0]], s[1..]);
      LettersAndDigitsAppend(head, rest);
      assert LettersAndDigits(head) == LettersAndDigits([s[0]]);
      head + rest
  }

  /** The fourth step told character by character: a separator that starts
      a run becomes a hyphen, a separator inside a run (`inRun`) becomes
      nothing, and every other character stays. */
  function CollapseRunwise(s: string, inRun: bool): string {
    if s == [] then []
    else if IsSeparator(s[0]) then (if inRun then "" else "-") + CollapseRunwise(s[1..], true)
    else [s[0]] + CollapseRunwise(s[1..], false)
  }

  /** Inside a run, the rest of the run contributes nothing. */
  lemma {:induction false} RunwiseSkipsRun(s: string)
    ensures CollapseRunwise(s, true) == CollapseRunwise(DropLeading(s, IsSeparator), false)
  {
    if s != [] && IsSeparator(s[0]) {
      RunwiseSkipsRun(s[1..]);
    }
  }

  /** Collapsing adds and removes only separators and hyphens, so no letter
      or digit. */
  lemma {:induction false} RunwiseKeepsWords(s: string, inRun: bool)
    ensures LettersAndDigits(CollapseRunwise(s, inRun)) == LettersAndDigits(s)
  {
    if s != [] {
      RunwiseKeepsWords(s[1..], IsSeparator(s[0]));
      assert s == [s[0]] + s[1..];
      LettersAndDigitsAppend([s[0]], s[1..]);
      var head := if IsSeparator(s[0]) then (if inRun then "" else "-") else [s[0]];
      LettersAndDigitsAppend(head, CollapseRunwise(s[1..], IsSeparator(s[0])));
      assert LettersAndDigits(head) == LettersAndDigits([s[0]]);
    }
  }

  /** Collapsing leaves no separator and brings in no character but the
      hyphen. */
  lemma {:induction false} RunwiseChars(s: string, inRun: bool)
    ensures forall c :: c in CollapseRunwise(s, inRun) ==> !IsSeparator(c) && (c in s || c == '-')
  {
    if s != [] {
      RunwiseChars(s[1..], IsSeparator(s[0]));
      forall c | c in s[1..] ensures c in s {
        var k :| 0 <= k < |s[1..]| && s[1..][k] == c;
        assert s[k + 1] == c;
      }
    }
  }

  /** Fourth step, `.replace(/[\s_]+/g, '-')`: each maximal run of
      separators becomes exactly one hyphen, and everything else stays in
      order. */
  function CollapseSeparators(s: string): (r: string)
    ensures forall c :: c in r ==> !IsSeparator(c) && (c in s || c == '-')
    ensures r == CollapseRunwise(s, false)
    ensures LettersAndDigits(r) == LettersAndDigits(s)
    decreases |s|
  {
    RunwiseKeepsWords(s, false);
    RunwiseChars(s, false);
    if s == [] then []
    else if IsSeparator(s[0]) then
      RunwiseSkipsRun(s[1..]);
      assert DropLeading(s, IsSeparator) == DropLeading(s[1..], IsSeparator);
      "-" + CollapseSeparators(DropLeading(s, IsSeparator))
    else [s[0]] + CollapseSeparators(s[1..])
  }

  /** Dropping the hyphens at both ends drops no letter or digit. */
  lemma HyphenEndsKeepWords(s: string)
    ensures var t := DropLeading(s, IsHyphen);
            LettersAndDigits(DropTrailing(t, IsHyphen)) == LettersAndDigits(s)
  {
    var t := DropLeading(s, IsHyphen);
    var r := DropTrailing(t, IsHyphen);
    assert LettersAndDigits(t) == LettersAndDigits(s) by {
      forall m | 0 <= m < |s| - |t| ensures !IsLowerAlnum(s[m]) {
        assert IsHyphen(s[m]);
      }
      DropWordlessPrefix(s, |s| - |t|);
    }
    assert LettersAndDigits(r) == LettersAndDigits(t) by {
      forall m | |r| <= m < |t| ensures !IsLowerAlnum(t[m]) {
        assert IsHyphen(t[m]);
      }
      DropWordlessSuffix(t, 0, |r|);
      assert t[0..] == t && t[0..|r|] == r;
    }
  }

  /** Fifth step, `.replace(/^-+|-+$/g, '')`: only hyphens go, so every
      letter and digit stays. */
  function StripHyphens(s: string): (r: string)
    ensures forall c :: c in r ==> c in s
    ensures r != [] ==> r[0] != '-' && r[|r| - 1] != '-'
    ensures LettersAndDigits(r) == LettersAndDigits(s)
  {
    var t := DropLeading(s, IsHyphen);
    var r := DropTrailing(t, IsHyphen);
    assert forall c :: c in r ==> c in t;
    HyphenEndsKeepWords(s);
    r
  }

  /** `slugify`, over ASCII text: lower-case, trim, delete what is not a
      word character, whitespace or hyphen, turn separator runs into a
      hyphen, strip hyphens at both ends. The result is a slug (lower-case
      letters, digits and inner hyphens only), and it keeps every letter
      and digit of the lower-cased text, in order. */
  function Slugify(text: string): (r: string)
    requires IsAscii(text)
    ensures IsSlug(r)
    ensures LettersAndDigits(r) == LettersAndDigits(LowerCase(text))
  {
    var lower := LowerCase(text);
    assert forall c :: c in lower ==> c as int < 128 && !('A' <= c <= 'Z');
    var trimmed := Trim(lower);
    assert forall c :: c in trimmed ==> c in lower;
    TrimKeepsWords(lower);
    var kept := RemoveUnsafe(trimmed);
    var collapsed := CollapseSeparators(kept);
    assert forall c :: c in collapsed ==> IsSlugChar(c);
    assert LettersAndDigits(collapsed) == LettersAndDigits(kept) == LettersAndDigits(trimmed);
    StripHyphens(collapsed)
  }

  /** Each step leaves a slug as it is. */
  lemma {:induction false} RemoveUnsafeKeepsSlugChars(s: string)
    requires forall c :: c in s ==> IsSlugChar(c)
    ensures RemoveUnsafe(s) == s
  {
    if s != [] {
      assert s[0] in s;
      SlugCharIsPlain(s[0]);
      assert forall c :: c in s[1..] ==> c in s;
      RemoveUnsafeKeepsSlugChars(s[1..]);
      assert s == [s[0]] + s[1..];
    }
  }

  lemma {:induction false} CollapseKeepsSlugChars(s: string)
    requires forall c :: c in s ==> IsSlugChar(c)
    ensures CollapseSeparators(s) == s
  {
    if s != [] {
      assert s[0] in s;
      SlugCharIsPlain(s[0]);
      assert forall c :: c in s[1..] ==> c in s;
      CollapseKeepsSlugChars(s[1..]);
      assert s == [s[0]] + s[1..];
    }
  }

  /** Lower-casing, trimming and stripping hyphens each leave a slug as it
      is. */
  lemma SlugLowerCaseStable(s: string)
    requires IsSlug(s)
    ensures LowerCase(s) == s
  {
    forall i | 0 <= i < |s| ensures LowerCase(s)[i] == s[i] {
      assert s[i] in s;
      SlugCharIsPlain(s[i]);
    }
  }

  lemma SlugTrimStable(s: string)
    requires IsSlug(s)
    ensures Trim(s) == s
  {
    if s != [] {
      assert s[0] in s && s[|s| - 1] in s;
      SlugCharIsPlain(s[0]);
      SlugCharIsPlain(s[|s| - 1]);
      NothingToDrop(s, IsJsWhitespace);
    }
  }

  lemma SlugStripStable(s: string)
    requires IsSlug(s)
    ensures StripHyphens(s) == s
  {
    NothingToDrop(s, IsHyphen);
  }

  lemma SlugIsAscii(s: string)
    requires IsSlug(s)
    ensures IsAscii(s)
  {
    forall i | 0 <= i < |s| ensures s[i] as int < 128 {
      assert s[i] in s;
    }
  }

  /** A slug is its own slug. */
  lemma SlugifyFixesSlugs(s: string)
    requires IsSlug(s)
    ensures IsAscii(s) && Slugify(s) == s
  {
    SlugIsAscii(s);
    var lower := LowerCase(s);
    assert lower == s by { SlugLowerCaseStable(s); }
    var trimmed := Trim(lower);
    assert trimmed == s by { SlugTrimStable(s); }
    var kept := RemoveUnsafe(trimmed);
    assert kept == s by { RemoveUnsafeKeepsSlugChars(s); }
    var collapsed := CollapseSeparators(kept);
    assert collapsed == s by { CollapseKeepsSlugChars(s); }
    assert StripHyphens(collapsed) == s by { SlugStripStable(s); }
  }

  /** `slugify` is idempotent: slugifying a slug changes nothing. */
  lemma SlugifyIdempotent(text: string)
    requires IsAscii(text)
    ensures IsAscii(Slugify(text)) && Slugify(Slugify(text)) == Slugify(text)
  {
    SlugifyFixesSlugs(Slugify(text));
  }

  // ---------------------------------------------------------------------
  // truncateText

  /** `truncateText(text, maxLength = 100)`: the text itself when it is at
      most `maxLength` long; otherwise its first `maxLength` characters
      (counted from the end for a negative length, as `slice` does) with
      trailing whitespace removed, followed by `"..."`. */
  function TruncateText(text: string, maxLength: Option<int>): (r: string)
    ensures var m := maxLength.GetOr(100);
            |text| <= m ==> r == text
    ensures var m := maxLength.GetOr(100);
            var cut := ClampIndex(m, |text|);
            |text| > m ==>
              && 3 <= |r| <= cut + 3
              && r[|r| - 3..] == "..."
              && r[..|r| - 3] == text[..|r| - 3]
              && (forall i :: |r| - 3 <= i < cut ==> IsJsWhitespace(text[i]))
              && (|r| > 3 ==> !IsJsWhitespace(r[|r| - 4]))
  {
    var m := maxLength.GetOr(100);
    if |text| <= m then text
    else
      var body := TrimEnd(JsSlice(text, 0, m));
      var r := body + "...";
      assert r[..|r| - 3] == body;
      r
  }

  /** A truncated text is at most three characters longer than the limit,
      and what precedes the ellipsis is a prefix of the input. */
  lemma TruncateTextBound(text: string, maxLength: int)
    requires maxLength >= 0
    ensures |TruncateText(text, Some(maxLength))| <= (if |text| <= maxLength then |text| else maxLength + 3)
    ensures |text| > maxLength ==>
              var r := TruncateText(text, Some(maxLength));
              r[..|r| - 3] == text[..|r| - 3]
  {
  }

  // ---------------------------------------------------------------------
  // omit and pick, over an object's own properties

  /** `omit`: a copy of `obj` from which every listed key is deleted in
      turn; all other keys keep their values. */
  method Omit<V>(obj: map<string, V>, keys: seq<string>) returns (result: map<string, V>)
    ensures forall k :: k in result <==> k in obj && k !in keys
    ensures forall k :: k in result ==> result[k] == obj[k]
  {
    result := obj;
    for i := 0 to |keys|
      invariant forall k :: k in result <==> k in obj && k !in keys[..i]
      invariant forall k :: k in result ==> result[k] == obj[k]
    {
      result := result - {keys[i]};
    }
    assert keys[..|keys|] == keys;
  }

  /** `pick`: a new object that receives, key by key, every listed key that
      `obj` has, with its value. */
  method Pick<V>(obj: map<string, V>, keys: seq<string>) returns (result: map<string, V>)
    ensures forall k :: k in result <==> k in obj && k in keys
    ensures forall k :: k in result ==> result[k] == obj[k]
  {
    result := map[];
    for i := 0 to |keys|
      invariant forall k :: k in result <==> k in obj && k in keys[..i]
      invariant forall k :: k in result ==> result[k] == obj[k]
    {
      if keys[i] in obj {
        result := result[keys[i] := obj[keys[i]]];
      }
    }
    assert keys[..|keys|] == keys;
  }
}
