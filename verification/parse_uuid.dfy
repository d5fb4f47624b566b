/** The pipe that accepts a route parameter only when it is a UUID in the
    textual layout of section 3 of RFC 4122. The pattern is
    `^[0-9a-f]{8}-[0-9a-f]{4}-[1-5][0-9a-f]{3}-[89ab][0-9a-f]{3}-[0-9a-f]{12}$`
    with the case-insensitive flag. */
module ParseUuid {
  import opened Wrappers
  import opened JsText
  import opened Exceptions

  /** The character classes of the pattern. */
  datatype CharClass = HexDigit | VersionDigit | VariantDigit | Hyphen

  /** Class membership under the `i` flag. Every class holds only ASCII
      characters, so folding ASCII letters to lower case is the whole of the
      case-insensitive comparison: no other character folds onto them. */
  predicate InClass(k: CharClass, c: char) {
    var d := ToLowerAscii(c);
    match k
    case HexDigit => '0' <= d <= '9' || 'a' <= d <= 'f'
    case VersionDigit => '1' <= d <= '5'
    case VariantDigit => d == '8' || d == '9' || d == 'a' || d == 'b'
    case Hyphen => d == '-'
  }

  /** A class repeated a fixed number of times, like `[0-9a-f]{8}`. */
  datatype Atom = Atom(cls: CharClass, count: nat)

  const UuidPattern: seq<Atom> := [
    Atom(HexDigit, 8), Atom(Hyphen, 1),
    Atom(HexDigit, 4), Atom(Hyphen, 1),
    Atom(VersionDigit, 1), Atom(HexDigit, 3), Atom(Hyphen, 1),
    Atom(VariantDigit, 1), Atom(HexDigit, 3), Atom(Hyphen, 1),
    Atom(HexDigit, 12)]

  /** An anchored match (`^…$`) of the whole of `s` against the atoms from
      index `k` on. */
  predicate Matches(p: seq<Atom>, k: nat, s: string)
    ensures Matches(p, k, s) ==> |s| == Width(p, k)
    decreases |p| - k
  {
    if k >= |p| then s == []
    else
      && p[k].count <= |s|
      && (forall i :: 0 <= i < p[k].count ==> InClass(p[k].cls, s[i]))
      && Matches(p, k + 1, s[p[k].count..])
  }

  /** `uuidRegex.test(s)`. */
  predicate IsUuid(s: string)
    ensures IsUuid(s) ==> |s| == 36
  {
    UuidPatternWidth();
    Matches(UuidPattern, 0, s)
  }

  /** The class the pattern puts at each of the 36 positions. */
  function ClassAt(i: int): CharClass {
    if i == 8 || i == 13 || i == 18 || i == 23 then Hyphen
    else if i == 14 then VersionDigit
    else if i == 19 then VariantDigit
    else HexDigit
  }

  /** The pattern, read position by position: 36 characters, each in the
      class `ClassAt` gives for its position. */
  predicate PositionallyUuid(s: string) {
    |s| == 36 && forall i :: 0 <= i < 36 ==> InClass(ClassAt(i), s[i])
  }

  /** How many characters a match of the atoms from index `k` on spans. */
  function Width(p: seq<Atom>, k: nat): nat
    decreases |p| - k
  {
    if k >= |p| then 0 else p[k].count + Width(p, k + 1)
  }

  /** The class the atoms from index `k` on put at position `i` of a match. */
  function ClassIn(p: seq<Atom>, k: nat, i: nat): CharClass
    requires i < Width(p, k)
    decreases |p| - k
  {
    if i < p[k].count then p[k].cls else ClassIn(p, k + 1, i - p[k].count)
  }

  /** A match, read position by position: the string is as long as the
      atoms' width and each character is in the class for its position. */
  lemma {:induction false} MatchesPositional(p: seq<Atom>, k: nat, s: string)
    ensures Matches(p, k, s) <==>
              |s| == Width(p, k) && forall i :: 0 <= i < |s| ==> InClass(ClassIn(p, k, i), s[i])
    decreases |p| - k
  {
    if k < |p| {
      var n := p[k].count;
      if n <= |s| {
        var t := s[n..];
        MatchesPositional(p, k + 1, t);
        if Matches(p, k, s) {
          forall i | 0 <= i < |s| ensures InClass(ClassIn(p, k, i), s[i]) {
            if i >= n { assert s[i] == t[i - n]; }
          }
        }
        if |s| == Width(p, k) && forall i :: 0 <= i < |s| ==> InClass(ClassIn(p, k, i), s[i]) {
          forall j | 0 <= j < |t| ensures InClass(ClassIn(p, k + 1, j), t[j]) {
            assert ClassIn(p, k, j + n) == ClassIn(p, k + 1, j);
          }
        }
      }
    }
  }

  /** The UUID pattern spans 36 characters; the widths of its tails are the
      ones below. */
  lemma UuidPatternWidth()
    ensures Width(UuidPattern, 0) == 36
    ensures Width(UuidPattern, 1) == 28 && Width(UuidPattern, 2) == 27
    ensures Width(UuidPattern, 3) == 23 && Width(UuidPattern, 4) == 22
    ensures Width(UuidPattern, 5) == 21 && Width(UuidPattern, 6) == 18
    ensures Width(UuidPattern, 7) == 17 && Width(UuidPattern, 8) == 16
    ensures Width(UuidPattern, 9) == 13 && Width(UuidPattern, 10) == 12
  {
    var p := UuidPattern;
    assert Width(p, 11) == 0;
    assert Width(p, 10) == 12;
    assert Width(p, 9) == 13;
    assert Width(p, 8) == 16;
    assert Width(p, 7) == 17;
    assert Width(p, 6) == 18;
    assert Width(p, 5) == 21;
    assert Width(p, 4) == 22;
    assert Width(p, 3) == 23;
    assert Width(p, 2) == 27;
    assert Width(p, 1) == 28;
  }

  /** The first seven atoms of the UUID pattern: positions 0 to 18. */
  lemma UuidPatternHead(i: int)
    requires 0 <= i < 19
    ensures Width(UuidPattern, 0) == 36
    ensures ClassIn(UuidPattern, 0, i) == ClassAt(i)
  {
    UuidPatternWidth();
    var p := UuidPattern;
    if i < 8 {
    } else if i < 9 {
      assert ClassIn(p, 0, i) == ClassIn(p, 1, i - 8);
    } else if i < 13 {
      assert ClassIn(p, 0, i) == ClassIn(p, 1, i - 8) == ClassIn(p, 2, i - 9);
    } else {
      assert ClassIn(p, 0, i) == ClassIn(p, 1, i - 8) == ClassIn(p, 2, i - 9) == ClassIn(p, 3, i - 13);
      if i >= 14 {
        assert ClassIn(p, 3, i - 13) == ClassIn(p, 4, i - 14);
        if i >= 15 {
          assert ClassIn(p, 4, i - 14) == ClassIn(p, 5, i - 15);
          if i >= 18 {
            assert ClassIn(p, 5, i - 15) == ClassIn(p, 6, i - 18);
          }
        }
      }
    }
  }

  /** The atoms from index 7 on: positions 19 to 35. */
  lemma UuidPatternTail(j: int)
    requires 0 <= j < 17
    ensures Width(UuidPattern, 7) == 17
    ensures ClassIn(UuidPattern, 7, j) == ClassAt(j + 19)
  {
    UuidPatternWidth();
    var p := UuidPattern;
    if j >= 1 {
      assert ClassIn(p, 7, j) == ClassIn(p, 8, j - 1);
      if j >= 4 {
        assert ClassIn(p, 8, j - 1) == ClassIn(p, 9, j - 4);
        if j >= 5 {
          assert ClassIn(p, 9, j - 4) == ClassIn(p, 10, j - 5);
        }
      }
    }
  }

  /** The UUID pattern puts at each position the class `ClassAt` names. */
  lemma UuidPatternLayout(i: int)
    requires 0 <= i < 36
    ensures Width(UuidPattern, 0) == 36
    ensures ClassIn(UuidPattern, 0, i) == ClassAt(i)
  {
    UuidPatternWidth();
    if i < 19 {
      UuidPatternHead(i);
    } else {
      var p := UuidPattern;
      UuidPatternTail(i - 19);
      assert ClassIn(p, 0, i) == ClassIn(p, 1, i - 8) == ClassIn(p, 2, i - 9) == ClassIn(p, 3, i - 13);
      assert ClassIn(p, 3, i - 13) == ClassIn(p, 4, i - 14) == ClassIn(p, 5, i - 15);
      assert ClassIn(p, 5, i - 15) == ClassIn(p, 6, i - 18) == ClassIn(p, 7, i - 19);
    }
  }

  /** The regular expression and the positional reading agree on every
      string. */
  lemma IsUuidPositional(s: string)
    ensures IsUuid(s) <==> PositionallyUuid(s)
  {
    MatchesPositional(UuidPattern, 0, s);
    UuidPatternWidth();
    forall i | 0 <= i < 36 ensures ClassIn(UuidPattern, 0, i) == ClassAt(i) {
      UuidPatternLayout(i);
    }
  }

  /** What an accepted string looks like, class by class: hyphens at
      indices 8, 13, 18 and 23, hexadecimal digits of either case elsewhere,
      a version digit 1 to 5 at index 14 and a variant digit 8, 9, a or b, of
      either case, at index 19. */
  lemma AcceptedLayout(s: string)
    requires PositionallyUuid(s)
    ensures |s| == 36
    ensures s[8] == '-' && s[13] == '-' && s[18] == '-' && s[23] == '-'
    ensures forall i :: 0 <= i < 36 && i !in {8, 13, 18, 23} ==>
              '0' <= s[i] <= '9' || 'a' <= s[i] <= 'f' || 'A' <= s[i] <= 'F'
    ensures '1' <= s[14] <= '5'
    ensures s[19] in "89abAB"
  {
    assert InClass(ClassAt(8), s[8]) && InClass(ClassAt(13), s[13]);
    assert InClass(ClassAt(18), s[18]) && InClass(ClassAt(23), s[23]);
    assert InClass(ClassAt(14), s[14]) && InClass(ClassAt(19), s[19]);
  }

  /** Matching ignores case: two strings that agree once lower-cased are
      both accepted or both refused. */
  lemma {:induction false} MatchesIgnoresCase(p: seq<Atom>, k: nat, s: string, t: string)
    requires LowerCase(s) == LowerCase(t)
    ensures Matches(p, k, s) <==> Matches(p, k, t)
    decreases |p| - k
  {
    assert |s| == |t|;
    if k < |p| && p[k].count <= |s| {
      forall i | 0 <= i < p[k].count ensures InClass(p[k].cls, s[i]) <==> InClass(p[k].cls, t[i]) {
        assert LowerCase(s)[i] == LowerCase(t)[i];
      }
      var n := p[k].count;
      LowerCaseDrop(s, n);
      LowerCaseDrop(t, n);
      MatchesIgnoresCase(p, k + 1, s[n..], t[n..]);
    }
  }

  lemma UuidIgnoresCase(s: string, t: string)
    requires LowerCase(s) == LowerCase(t)
    ensures IsUuid(s) <==> IsUuid(t)
  {
    MatchesIgnoresCase(UuidPattern, 0, s, t);
  }

  /** `new BadRequestException(message)` as the framework builds it. */
  function BadRequest(message: string): (e: HttpException)
    ensures e.status == BAD_REQUEST
    ensures e.response.Fields? && e.response.message == Some(Text(message))
  {
    HttpException(BAD_REQUEST, Fields(None, Some("Bad Request"), Some(BAD_REQUEST), Some(Text(message))))
  }

  /** `ParseUuidPipe.transform`: a UUID passes unchanged; anything else is
      refused with status 400 and a message quoting it. */
  function Transform(value: string): (r: Result<string, HttpException>)
    ensures r.Success? <==> PositionallyUuid(value)
    ensures r.Success? ==> r.value == value
    ensures r.Failure? ==>
              && r.error.status == BAD_REQUEST
              && r.error.response.Fields?
              && r.error.response.message == Some(Text("'" + value + "' is not a valid UUID"))
  {
    IsUuidPositional(value);
    if IsUuid(value) then Success(value)
    else Failure(BadRequest("'" + value + "' is not a valid UUID"))
  }
}
