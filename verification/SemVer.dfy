/** Release tags: parsing, printing and precedence (sections 9 and 11 of Semantic Versioning 2.0.0). */
module SemVer {
  import opened Wrappers
  import opened Text

  /** A parsed tag; pre holds the dot-separated pre-release identifiers. */
  datatype Version = Version(major: nat, minor: nat, patch: nat, pre: Option<seq<string>>)

  predicate IdentifierChar(c: char) {
    '0' <= c <= '9' || 'A' <= c <= 'Z' || 'a' <= c <= 'z' || c == '-'
  }

  predicate Identifier(s: string) {
    s != "" && forall i :: 0 <= i < |s| ==> IdentifierChar(s[i])
  }

  /** `identifier.isdigit() and len(identifier) > 1 and identifier.startswith("0")` */
  predicate LeadingZero(s: string) {
    |s| > 1 && AllDigits(s) && s[0] == '0'
  }

  predicate ValidPre(pre: Option<seq<string>>) {
    pre.Some? ==> pre.value != [] && forall id :: id in pre.value ==> Identifier(id) && !LeadingZero(id)
  }

  /** The numbers of "major.minor.patch". */
  function ParseCore(text: string): Option<(nat, nat, nat)> {
    var core := Split(text, '.');
    if |core| != 3 || !Canonical(core[0]) || !Canonical(core[1]) || !Canonical(core[2]) then None
    else Some((Value(core[0]), Value(core[1]), Value(core[2])))
  }

  function CoreText(tag: string): string
    requires tag != "" && tag[0] == 'v'
  {
    tag[1..IndexOf(tag, '-')]
  }

  function Identifiers(tag: string): Option<seq<string>> {
    var dash := IndexOf(tag, '-');
    if dash < |tag| then Some(Split(tag[dash + 1..], '.')) else None
  }

  function Parse(tag: string): (r: Option<Version>)
    ensures r.Some? ==> ValidPre(r.value.pre)
  {
    if tag == "" || tag[0] != 'v' then None
    else
      var core, pre := ParseCore(CoreText(tag)), Identifiers(tag);
      if core.None? || !ValidPre(pre) then None
      else Some(Version(core.value.0, core.value.1, core.value.2, pre))
  }

  function PrintCore(core: (nat, nat, nat)): string {
    Decimal(core.0) + "." + Decimal(core.1) + "." + Decimal(core.2)
  }

  function PrintPre(pre: Option<seq<string>>): string {
    if pre.Some? then "-" + Join(pre.value, '.') else ""
  }

  function Print(v: Version): string {
    "v" + PrintCore((v.major, v.minor, v.patch)) + PrintPre(v.pre)
  }

  lemma DottedCore(a: string, b: string, c: string)
    requires Canonical(a) && Canonical(b) && Canonical(c)
    ensures Split(a + "." + b + "." + c, '.') == [a, b, c]
    ensures '-' !in a + "." + b + "." + c
  {
    hide Split;
    var bc := b + ['.'] + c;
    SplitPrefix(c, "", '.');
    SplitPrefix(b, c, '.');
    SplitPrefix(a, bc, '.');
    assert a + ['.'] + bc == a + "." + b + "." + c;
    assert [a] + ([b] + [c]) == [a, b, c];
  }

  lemma CoreReadsBack(core: (nat, nat, nat))
    ensures ParseCore(PrintCore(core)) == Some(core) && '-' !in PrintCore(core)
  {
    ValueOfDecimal(core.0);
    ValueOfDecimal(core.1);
    ValueOfDecimal(core.2);
    DottedCore(Decimal(core.0), Decimal(core.1), Decimal(core.2));
  }

  lemma CorePrintsBack(text: string)
    requires ParseCore(text).Some?
    ensures PrintCore(ParseCore(text).value) == text
  {
    var core := Split(text, '.');
    JoinOfSplit(text, '.');
    DecimalOfValue(core[0]);
    DecimalOfValue(core[1]);
    DecimalOfValue(core[2]);
    assert core[1..] == [core[1], core[2]] && core[1..][1..] == [core[2]];
    assert Join(core[1..], '.') == core[1] + ['.'] + core[2];
    assert core[0] + ['.'] + (core[1] + ['.'] + core[2]) == core[0] + "." + core[1] + "." + core[2];
  }

  lemma IdentifiersHaveNoDot(ids: seq<string>)
    requires forall id :: id in ids ==> Identifier(id)
    ensures forall id :: id in ids ==> '.' !in id
  {
    assert !IdentifierChar('.');
  }

  /** A tag made of a core without a dash and printed identifiers is taken apart into them. */
  lemma TagComesApart(core: string, pre: Option<seq<string>>)
    requires '-' !in core && (pre.Some? ==> pre.value != [] && forall id :: id in pre.value ==> Identifier(id))
    ensures var tag := "v" + core + PrintPre(pre);
            tag[0] == 'v' && CoreText(tag) == core && Identifiers(tag) == pre
  {
    hide Split, Join;
    var tag := "v" + core + PrintPre(pre);
    assert tag[0] == 'v';
    IndexOfAfter("v" + core, PrintPre(pre), '-');
    assert tag[1..1 + |core|] == core;
    if pre.Some? {
      assert tag[2 + |core|..] == Join(pre.value, '.');
      IdentifiersHaveNoDot(pre.value);
      SplitOfJoin(pre.value, '.');
    }
  }

  lemma TagPutTogether(tag: string)
    requires tag != "" && tag[0] == 'v'
    ensures tag == "v" + CoreText(tag) + PrintPre(Identifiers(tag))
  {
    var dash := IndexOf(tag, '-');
    assert tag[..dash] == "v" + CoreText(tag);
    if dash < |tag| {
      JoinOfSplit(tag[dash + 1..], '.');
      assert PrintPre(Identifiers(tag)) == "-" + tag[dash + 1..];
      assert tag[dash..] == "-" + tag[dash + 1..];
    }
    assert tag == tag[..dash] + tag[dash..];
  }

  /** Printing any version the parser can produce and parsing it again gives that version. */
  lemma ParseOfPrint(v: Version)
    requires ValidPre(v.pre)
    ensures Parse(Print(v)) == Some(v)
  {
    CoreReadsBack((v.major, v.minor, v.patch));
    TagComesApart(PrintCore((v.major, v.minor, v.patch)), v.pre);
  }

  /** A tag that parses is the printed form of what it parses to. */
  lemma PrintOfParse(tag: string)
    requires Parse(tag).Some?
    ensures Print(Parse(tag).value) == tag
  {
    CorePrintsBack(CoreText(tag));
    TagPutTogether(tag);
  }

  /** Distinct tags never parse to the same version. */
  lemma ParseInjective(a: string, b: string)
    requires Parse(a).Some? && Parse(a) == Parse(b)
    ensures a == b
  {
    PrintOfParse(a);
    PrintOfParse(b);
  }

  // ----- The two regular expressions -----

  /** `0|[1-9][0-9]*|[0-9A-Za-z-]*[A-Za-z-][0-9A-Za-z-]*` */
  ghost predicate StrictIdentifier(s: string) {
    || Canonical(s)
    || (Identifier(s) && exists i :: 0 <= i < |s| && !('0' <= s[i] <= '9'))
  }

  /** A full match of a tag expression whose pre-release identifiers all satisfy one pattern. */
  ghost predicate TagShape(tag: string, core: seq<string>, pre: Option<seq<string>>) {
    && |core| == 3 && (forall part :: part in core ==> Canonical(part))
    && (pre.Some? ==> pre.value != [])
    && tag == "v" + (core[0] + "." + core[1] + "." + core[2]) + PrintPre(pre)
  }

  /** `SEMVER_RE.fullmatch(tag)` */
  ghost predicate SemverRe(tag: string, core: seq<string>, pre: Option<seq<string>>) {
    TagShape(tag, core, pre) && (pre.Some? ==> forall id :: id in pre.value ==> Identifier(id))
  }

  /** `STRICT_TAG.fullmatch(tag)` */
  ghost predicate StrictTag(tag: string) {
    exists core, pre ::
      TagShape(tag, core, pre) && (pre.Some? ==> forall id :: id in pre.value ==> StrictIdentifier(id))
  }

  lemma StrictIdentifiers(s: string)
    ensures StrictIdentifier(s) <==> Identifier(s) && !LeadingZero(s)
  {
  }

  lemma ShapeParses(tag: string, core: seq<string>, pre: Option<seq<string>>)
    requires SemverRe(tag, core, pre)
    ensures Parse(tag).Some? <==> ValidPre(pre)
  {
    assert core[0] in core && core[1] in core && core[2] in core;
    DottedCore(core[0], core[1], core[2]);
    TagComesApart(core[0] + "." + core[1] + "." + core[2], pre);
  }

  lemma ParseHasShape(tag: string)
    requires Parse(tag).Some?
    ensures exists core :: SemverRe(tag, core, Parse(tag).value.pre)
  {
    var v := Parse(tag).value;
    var core := [Decimal(v.major), Decimal(v.minor), Decimal(v.patch)];
    PrintOfParse(tag);
    ValueOfDecimal(v.major);
    ValueOfDecimal(v.minor);
    ValueOfDecimal(v.patch);
    assert SemverRe(tag, core, v.pre);
  }

  /** The promoter's tag expression accepts exactly the tags the selector parses. */
  lemma StrictTagIffParses(tag: string)
    ensures StrictTag(tag) <==> Parse(tag).Some?
  {
    forall s ensures StrictIdentifier(s) <==> Identifier(s) && !LeadingZero(s) {
      StrictIdentifiers(s);
    }
    if StrictTag(tag) {
      var core, pre :| TagShape(tag, core, pre)
                       && (pre.Some? ==> forall id :: id in pre.value ==> StrictIdentifier(id));
      ShapeParses(tag, core, pre);
    }
    if Parse(tag).Some? {
      ParseHasShape(tag);
      var core :| SemverRe(tag, core, Parse(tag).value.pre);
      assert TagShape(tag, core, Parse(tag).value.pre);
    }
  }

  // ----- Precedence -----

  /** The body of `_compare_prerelease`'s loop, and its final length comparison. */
  function CompareIdentifiers(left: seq<string>, right: seq<string>): int {
    if left == [] || right == [] then (if left != [] then 1 else 0) - (if right != [] then 1 else 0)
    else
      var a, b := left[0], right[0];
      if a == b then CompareIdentifiers(left[1..], right[1..])
      else if IsDigits(a) && IsDigits(b) then (if Value(a) < Value(b) then -1 else 1)
      else if IsDigits(a) != IsDigits(b) then (if IsDigits(a) then -1 else 1)
      else if Less(a, b) then -1 else 1
  }

  /** `str.isdigit` on identifiers, which are ASCII. */
  predicate IsDigits(s: string) {
    s != "" && AllDigits(s)
  }

  function ComparePrerelease(a: Version, b: Version): int {
    if a.pre.None? then (if b.pre.None? then 0 else 1)
    else if b.pre.None? then -1
    else CompareIdentifiers(a.pre.value, b.pre.value)
  }

  predicate CoreLess(a: Version, b: Version) {
    a.major < b.major || (a.major == b.major && (a.minor < b.minor || (a.minor == b.minor && a.patch < b.patch)))
  }

  /** `SemVer.__lt__` */
  predicate Lt(a: Version, b: Version) {
    if (a.major, a.minor, a.patch) != (b.major, b.minor, b.patch) then CoreLess(a, b) else ComparePrerelease(a, b) < 0
  }

  /** Section 11.4: numeric identifiers numerically, others in ASCII order, numeric ones first. */
  ghost predicate IdentifierPrecedes(a: string, b: string) {
    if IsDigits(a) && IsDigits(b) then Value(a) < Value(b)
    else if IsDigits(a) || IsDigits(b) then IsDigits(a)
    else Less(a, b)
  }

  /** Section 11.4: the first differing identifier decides; otherwise the longer list is higher. */
  ghost predicate IdentifiersPrecede(a: seq<string>, b: seq<string>) {
    exists i: nat :: FirstDifference(a, b, i) && (i == |a| || (i < |b| && IdentifierPrecedes(a[i], b[i])))
  }

  ghost predicate FirstDifference(a: seq<string>, b: seq<string>, i: nat) {
    i <= |a| && i <= |b| && a[..i] == b[..i] && (i < |a| || i < |b|) && (i < |a| && i < |b| ==> a[i] != b[i])
  }

  /** Section 11: major, minor and patch numerically; then a pre-release precedes its release. */
  ghost predicate Precedes(a: Version, b: Version) {
    || a.major < b.major
    || (a.major == b.major && a.minor < b.minor)
    || (a.major == b.major && a.minor == b.minor && a.patch < b.patch)
    || (a.major == b.major && a.minor == b.minor && a.patch == b.patch && a.pre.Some?
        && (b.pre.None? || IdentifiersPrecede(a.pre.value, b.pre.value)))
  }

  ghost predicate WellFormed(ids: seq<string>) {
    forall id :: id in ids ==> Identifier(id) && !LeadingZero(id)
  }

  /** Without leading zeros, different numeric identifiers are different numbers. */
  lemma NumbersDiffer(a: string, b: string)
    requires IsDigits(a) && IsDigits(b) && !LeadingZero(a) && !LeadingZero(b) && a != b
    ensures Value(a) != Value(b)
  {
    DecimalOfValue(a);
    DecimalOfValue(b);
  }

  lemma SamePrefixSameHead(a: seq<string>, b: seq<string>, i: nat)
    requires FirstDifference(a, b, i)
    ensures i == 0 || a[0] == b[0]
  {
    if i > 0 {
      assert a[..i][0] == a[0] && b[..i][0] == b[0];
    }
  }

  /** What the loop does at the first difference. */
  lemma {:induction false} CompareAtDifference(a: seq<string>, b: seq<string>)
    requires WellFormed(a) && WellFormed(b)
    ensures CompareIdentifiers(a, b) < 0 <==> IdentifiersPrecede(a, b)
    ensures CompareIdentifiers(a, b) == 0 <==> a == b
  {
    hide IsDigits, Value, Less, LeadingZero, Identifier;
    if a != [] && b != [] && a[0] == b[0] {
      CompareAtDifference(a[1..], b[1..]);
      assert a == [a[0]] + a[1..] && b == [b[0]] + b[1..];
      if IdentifiersPrecede(a[1..], b[1..]) {
        var i: nat :| FirstDifference(a[1..], b[1..], i)
                 && (i == |a[1..]| || (i < |b[1..]| && IdentifierPrecedes(a[1..][i], b[1..][i])));
        assert a[..i + 1] == [a[0]] + a[1..][..i] && b[..i + 1] == [b[0]] + b[1..][..i];
        assert FirstDifference(a, b, i + 1);
      }
      if IdentifiersPrecede(a, b) {
        var i: nat :| FirstDifference(a, b, i) && (i == |a| || (i < |b| && IdentifierPrecedes(a[i], b[i])));
        assert a[1..][..i - 1] == a[..i][1..] && b[1..][..i - 1] == b[..i][1..];
        assert FirstDifference(a[1..], b[1..], i - 1);
      }
    } else {
      assert FirstDifference(a, b, 0) || a == b;
      forall i: nat | FirstDifference(a, b, i) ensures i == 0 {
        SamePrefixSameHead(a, b, i);
      }
      if a != [] && b != [] {
        LessTotal(a[0], b[0]);
        if Less(a[0], b[0]) { LessAsymmetric(a[0], b[0]); }
        if IsDigits(a[0]) && IsDigits(b[0]) { NumbersDiffer(a[0], b[0]); }
      }
    }
  }

  /** On versions the parser produces, the code's order is the precedence of section 11. */
  lemma LtIsPrecedence(a: Version, b: Version)
    requires ValidPre(a.pre) && ValidPre(b.pre)
    ensures Lt(a, b) <==> Precedes(a, b)
  {
    if a.pre.Some? && b.pre.Some? {
      CompareAtDifference(a.pre.value, b.pre.value);
    }
  }

  lemma IdentifiersTrichotomy(a: string, b: string)
    requires Identifier(a) && !LeadingZero(a) && Identifier(b) && !LeadingZero(b) && a != b
    ensures CompareIdentifiers([a], [b]) == -CompareIdentifiers([b], [a])
    ensures CompareIdentifiers([a], [b]) in {-1, 1}
  {
    LessTotal(a, b);
    if Less(a, b) { LessAsymmetric(a, b); }
    if Less(b, a) { LessAsymmetric(b, a); }
    if IsDigits(a) && IsDigits(b) { NumbersDiffer(a, b); }
  }

  lemma IdentifiersTransitive(a: string, b: string, c: string)
    requires CompareIdentifiers([a], [b]) == -1 && CompareIdentifiers([b], [c]) == -1
    ensures CompareIdentifiers([a], [c]) == -1
  {
    if Less(a, b) && Less(b, c) {
      LessTransitive(a, b, c);
      LessAsymmetric(a, c);
    }
  }

  /** Two lists are compared like their first identifiers, or like their tails when those are equal. */
  lemma CompareByHead(a: seq<string>, b: seq<string>)
    requires a != [] && b != []
    ensures CompareIdentifiers(a, b)
         == if a[0] == b[0] then CompareIdentifiers(a[1..], b[1..]) else CompareIdentifiers([a[0]], [b[0]])
  {
  }

  lemma {:induction false} ListsTrichotomy(a: seq<string>, b: seq<string>)
    requires WellFormed(a) && WellFormed(b)
    ensures CompareIdentifiers(a, b) == -CompareIdentifiers(b, a)
    ensures CompareIdentifiers(a, b) == 0 <==> a == b
  {
    CompareAtDifference(a, b);
    if a != [] && b != [] {
      CompareByHead(a, b);
      CompareByHead(b, a);
      if a[0] == b[0] {
        ListsTrichotomy(a[1..], b[1..]);
      } else {
        IdentifiersTrichotomy(a[0], b[0]);
      }
    }
  }

  lemma {:induction false} ListsTransitive(a: seq<string>, b: seq<string>, c: seq<string>)
    requires WellFormed(a) && WellFormed(b) && WellFormed(c)
    requires CompareIdentifiers(a, b) < 0 && CompareIdentifiers(b, c) < 0
    ensures CompareIdentifiers(a, c) < 0
  {
    if a != [] && b != [] && c != [] {
      CompareByHead(a, b);
      CompareByHead(b, c);
      CompareByHead(a, c);
      if a[0] == b[0] == c[0] {
        ListsTransitive(a[1..], b[1..], c[1..]);
      } else if a[0] != b[0] && b[0] != c[0] {
        IdentifiersTrichotomy(a[0], b[0]);
        IdentifiersTrichotomy(b[0], c[0]);
        if a[0] != c[0] {
          IdentifiersTransitive(a[0], b[0], c[0]);
        }
      }
    }
  }

  /** `__lt__` is a strict total order on the versions the parser produces. */
  lemma LtIsStrictTotalOrder(a: Version, b: Version, c: Version)
    requires ValidPre(a.pre) && ValidPre(b.pre) && ValidPre(c.pre)
    ensures !Lt(a, a)
    ensures Lt(a, b) && Lt(b, c) ==> Lt(a, c)
    ensures a == b || Lt(a, b) || Lt(b, a)
    ensures !(Lt(a, b) && Lt(b, a))
  {
    if a.pre.Some? {
      ListsTrichotomy(a.pre.value, a.pre.value);
      if b.pre.Some? {
        ListsTrichotomy(a.pre.value, b.pre.value);
        if c.pre.Some? && CompareIdentifiers(a.pre.value, b.pre.value) < 0
           && CompareIdentifiers(b.pre.value, c.pre.value) < 0 {
          ListsTransitive(a.pre.value, b.pre.value, c.pre.value);
        }
      }
    }
  }

  /**
   * Rejecting leading zeros is what makes this true: two different digit identifiers are each called greater than
   * the other exactly when they spell the same number.
   */
  lemma SameNumberIsGreaterBothWays(a: string, b: string)
    requires IsDigits(a) && IsDigits(b) && a != b
    ensures CompareIdentifiers([a], [b]) == 1 && CompareIdentifiers([b], [a]) == 1 <==> Value(a) == Value(b)
    ensures LeadingZero(a) || LeadingZero(b) <== Value(a) == Value(b)
  {
    if !LeadingZero(a) && !LeadingZero(b) {
      NumbersDiffer(a, b);
    }
  }
}
