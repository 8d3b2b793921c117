/** The chunked upload of a script and the order in which its parts are put together again. */
module SsmUpload {
  import opened Text
  import opened Listing

  const CHUNK := 4000
  const INLINE_CHUNK := 3500

  // ----- Chunks and part names -----

  /** `encoded[index : index + chunk_size]` for the k-th index. */
  function Chunk(s: string, size: nat, k: nat): string
    requires size > 0
  {
    var from := if size * k <= |s| then size * k else |s|;
    var to := if size * (k + 1) <= |s| then size * (k + 1) else |s|;
    s[from..to]
  }

  function ChunkCount(s: string, size: nat): nat
    requires size > 0
  {
    (|s| + size - 1) / size
  }

  function Zeros(n: nat): (s: string)
    ensures |s| == n && AllDigits(s)
  {
    if n == 0 then "" else "0" + Zeros(n - 1)
  }

  /** `f"{chunk_no:04d}"` */
  function PartName(n: nat): (s: string)
    ensures AllDigits(s)
  {
    var d := Decimal(n);
    if |d| >= 4 then d else Zeros(4 - |d|) + d
  }

  lemma {:induction false} ZerosKeepValue(n: nat, d: string)
    requires AllDigits(d)
    ensures AllDigits(Zeros(n) + d) && Value(Zeros(n) + d) == Value(d)
  {
    if d == "" {
      ZerosAreZero(n);
      assert Zeros(n) + d == Zeros(n);
    } else {
      ZerosKeepValue(n, d[..|d| - 1]);
      assert (Zeros(n) + d)[..|Zeros(n) + d| - 1] == Zeros(n) + d[..|d| - 1];
    }
  }

  lemma {:induction false} ZerosAreZero(n: nat)
    ensures Value(Zeros(n)) == 0
  {
    if n > 0 {
      ZerosAreZero(n - 1);
      ZerosFromTheRight(n);
    }
  }

  lemma {:induction false} ZerosFromTheRight(n: nat)
    requires n > 0
    ensures Zeros(n)[..n - 1] == Zeros(n - 1) && Zeros(n)[n - 1] == '0'
  {
    if n > 1 {
      ZerosFromTheRight(n - 1);
      assert Zeros(n)[..n - 1] == "0" + Zeros(n - 1)[..n - 2];
    }
  }

  /** A part name spells its number, in four digits up to 9999. */
  lemma PartNameValue(n: nat)
    ensures Value(PartName(n)) == n && (n <= 9999 <==> |PartName(n)| == 4)
  {
    ValueOfDecimal(n);
    FourDigits(n);
    if |Decimal(n)| < 4 {
      ZerosKeepValue(4 - |Decimal(n)|, Decimal(n));
    }
  }

  function PowerOfTen(k: nat): nat {
    if k == 0 then 1 else 10 * PowerOfTen(k - 1)
  }

  lemma {:induction false} DecimalLength(n: nat, k: nat)
    requires k >= 1
    ensures |Decimal(n)| <= k <==> n < PowerOfTen(k)
  {
    if k == 1 {
      assert PowerOfTen(1) == 10 * PowerOfTen(0);
      assert n >= 10 ==> |Decimal(n / 10)| >= 1;
    } else if n < 10 {
      DecimalLength(n, k - 1);
    } else {
      DecimalLength(n / 10, k - 1);
    }
  }

  lemma FourDigits(n: nat)
    ensures |Decimal(n)| <= 4 <==> n <= 9999
  {
    DecimalLength(n, 4);
    assert PowerOfTen(2) == 100;
    assert PowerOfTen(4) == 10000;
  }

  /** The last characters decide only between equal beginnings. */
  lemma {:induction false} LessByLast(a: string, b: string)
    requires |a| == |b| > 0
    ensures var n := |a| - 1;
            Less(a, b) <==> Less(a[..n], b[..n]) || (a[..n] == b[..n] && a[n] < b[n])
  {
    var n := |a| - 1;
    if n > 0 {
      LessByLast(a[1..], b[1..]);
      assert a[1..][..n - 1] == a[..n][1..] && b[1..][..n - 1] == b[..n][1..];
      assert a[..n] == [a[0]] + a[..n][1..] && b[..n] == [b[0]] + b[..n][1..];
    }
  }

  /** Digit strings of one length are ordered as their numbers. */
  lemma {:induction false} SameLengthOrder(a: string, b: string)
    requires |a| == |b| && AllDigits(a) && AllDigits(b)
    ensures Less(a, b) <==> Value(a) < Value(b)
    ensures a == b <==> Value(a) == Value(b)
  {
    hide Less;
    if a == "" {
      EmptyIsNotLess();
    } else {
      var n := |a| - 1;
      LessByLast(a, b);
      SameLengthOrder(a[..n], b[..n]);
      assert a == a[..n] + [a[n]] && b == b[..n] + [b[n]];
    }
  }

  lemma EmptyIsNotLess()
    ensures !Less("", "")
  {
  }

  // ----- The remote host -----

  function NumberedNames(n: nat): (names: seq<string>)
    ensures |names| == n && forall i :: 0 <= i < n ==> names[i] == PartName(i + 1)
  {
    if n == 0 then [] else NumberedNames(n - 1) + [PartName(n)]
  }

  /** The first n parts are there, each a chunk and a line end. */
  ghost predicate PartsOf(parts: map<string, string>, s: string, n: nat) {
    && (forall name :: name in parts <==> name in NumberedNames(n))
    && forall i: nat :: i < n ==> IsPart(parts, s, i)
  }

  ghost predicate IsPart(parts: map<string, string>, s: string, i: nat) {
    PartName(i + 1) in parts && parts[PartName(i + 1)] == Chunk(s, CHUNK, i) + "\n"
  }

  function Concatenated(parts: map<string, string>, names: seq<string>): string
    requires forall name :: name in names ==> name in parts
  {
    if names == [] then ""
    else
      assert names[|names| - 1] in names;
      Concatenated(parts, names[..|names| - 1]) + parts[names[|names| - 1]]
  }

  /** `cat part-*`: the shell lists the names in lexical order. */
  ghost function LexicalCat(parts: map<string, string>): string {
    Concatenated(parts, Ascending(parts.Keys))
  }

  class Host {
    var parts: map<string, string>
    var text: string
    var calls: nat
    const accepts: nat -> bool

    constructor (accepts: nat -> bool)
      ensures parts == map[] && text == "" && this.accepts == accepts
    {
      parts, text, calls, this.accepts := map[], "", 0, accepts;
    }

    ghost predicate Willing() {
      forall i: nat :: accepts(i)
    }

    method RemoveParts() returns (ok: bool)
      modifies this
      ensures ok ==> parts == map[]
      ensures Willing() ==> ok
    {
      ok, calls := accepts(calls), calls + 1;
      parts := map[];
    }

    method WritePart(name: string, content: string) returns (ok: bool)
      modifies this
      ensures ok ==> parts == old(parts)[name := content]
      ensures Willing() ==> ok
    {
      ok, calls := accepts(calls), calls + 1;
      parts := parts[name := content];
    }

    /** Fails when the pattern matches no part. */
    method JoinParts() returns (ok: bool)
      modifies this
      ensures parts == old(parts)
      ensures ok ==> parts != map[] && text == LexicalCat(parts)
      ensures Willing() ==> (ok <==> parts != map[])
    {
      ok, calls := accepts(calls) && parts != map[], calls + 1;
      if ok {
        var names := InOrder(parts.Keys);
        text := "";
        assert names[..0] == [];
        for i := 0 to |names|
          invariant parts == old(parts)
          invariant forall name :: name in names ==> name in parts
          invariant forall name :: name in names[..i] ==> name in parts
          invariant text == Concatenated(parts, names[..i])
        {
          assert names[..i + 1][..i] == names[..i];
          text := text + parts[names[i]];
        }
        assert names[..|names|] == names;
      }
    }
  }

  /** `_send_large_ssm_script`, up to the decoding of the joined text. */
  method SendLargeScript(host: Host, encoded: string) returns (ok: bool)
    modifies host
    ensures ok ==> PartsOf(host.parts, encoded, ChunkCount(encoded, CHUNK)) && host.text == LexicalCat(host.parts)
    ensures host.Willing() ==> (ok <==> encoded != "")
    ensures ok ==> (DropNewlines(host.text) == encoded <==> Reassembles(encoded))
  {
    hide Chunk, PartName, LexicalCat, PartsOf, BuiltParts, DropNewlines;
    ok := host.RemoveParts();
    if !ok {
      return;
    }
    var index, n := 0, 0;
    NoParts(encoded);
    while index < |encoded|
      invariant index == CHUNK * n && n <= ChunkCount(encoded, CHUNK)
      invariant PartsOf(host.parts, encoded, n)
      invariant ok
    {
      var chunkNo := index / CHUNK + 1;
      ThisChunk(encoded, n);
      NextPart(host.parts, encoded, n);
      var chunk := encoded[index..if index + CHUNK <= |encoded| then index + CHUNK else |encoded|];
      ok := host.WritePart(PartName(chunkNo), chunk + "\n");
      if !ok {
        return;
      }
      index, n := index + CHUNK, n + 1;
    }
    SomeParts(host.parts, encoded, n);
    PartsAreDetermined(host.parts, encoded, n);
    ok := host.JoinParts();
  }

  lemma NoParts(s: string)
    ensures PartsOf(map[], s, 0)
  {
  }

  lemma ThisChunk(s: string, n: nat)
    requires CHUNK * n < |s|
    ensures n + 1 <= ChunkCount(s, CHUNK)
    ensures Chunk(s, CHUNK, n) == s[CHUNK * n..if CHUNK * n + CHUNK <= |s| then CHUNK * n + CHUNK else |s|]
  {
  }

  lemma NamesDiffer(i: nat, j: nat)
    requires i != j
    ensures PartName(i) != PartName(j)
  {
    hide PartName;
    PartNameValue(i);
    PartNameValue(j);
  }

  lemma NextPart(parts: map<string, string>, s: string, n: nat)
    requires PartsOf(parts, s, n)
    ensures PartsOf(parts[PartName(n + 1) := Chunk(s, CHUNK, n) + "\n"], s, n + 1)
  {
    hide PartName, Chunk;
    var after := parts[PartName(n + 1) := Chunk(s, CHUNK, n) + "\n"];
    forall i: nat | i < n + 1 ensures IsPart(after, s, i) {
      if i < n {
        NamesDiffer(i + 1, n + 1);
        assert IsPart(parts, s, i);
      }
    }
  }

  lemma SomeParts(parts: map<string, string>, s: string, n: nat)
    requires PartsOf(parts, s, n) && CHUNK * n >= |s| && n <= ChunkCount(s, CHUNK)
    ensures n == ChunkCount(s, CHUNK) && (parts != map[] <==> s != "")
  {
    hide PartName, Chunk;
    assert n > 0 ==> IsPart(parts, s, 0);
    assert n == 0 ==> parts == map[];
  }

  // ----- Putting the parts together -----

  /** What `base64 -d` reads: line ends do not count. */
  function DropNewlines(s: string): string {
    if s == "" then "" else DropNewlines(s[..|s| - 1]) + if s[|s| - 1] == '\n' then "" else [s[|s| - 1]]
  }

  lemma {:induction false} DropNewlinesConcat(a: string, b: string)
    ensures DropNewlines(a + b) == DropNewlines(a) + DropNewlines(b)
  {
    if b == "" {
      assert a + b == a;
    } else {
      DropNewlinesConcat(a, b[..|b| - 1]);
      assert (a + b)[..|a + b| - 1] == a + b[..|b| - 1];
    }
  }

  lemma {:induction false} NoNewlines(s: string)
    requires '\n' !in s
    ensures DropNewlines(s) == s && DropNewlines(s + "\n") == s
  {
    if s != "" {
      NoNewlines(s[..|s| - 1]);
      assert s[|s| - 1] in s;
    }
    assert (s + "\n")[..|s|] == s;
  }

  /** Parts taken in numeric order give back the text they were cut from. */
  lemma {:induction false} NumericOrder(parts: map<string, string>, s: string, n: nat, m: nat)
    requires '\n' !in s && PartsOf(parts, s, n) && m <= n
    requires forall name :: name in NumberedNames(m) ==> name in parts
    ensures DropNewlines(Concatenated(parts, NumberedNames(m))) == s[..if CHUNK * m <= |s| then CHUNK * m else |s|]
  {
    hide PartName, PartsOf, DropNewlines;
    if m == 0 {
      NoNewlines("");
    } else {
      var names := NumberedNames(m);
      assert names[..m - 1] == NumberedNames(m - 1);
      forall name | name in NumberedNames(m - 1) ensures name in parts {
        assert name in names;
      }
      NumericOrder(parts, s, n, m - 1);
      PartIs(parts, s, n, m - 1);
      var chunk := Chunk(s, CHUNK, m - 1);
      assert '\n' !in chunk;
      NoNewlines(chunk);
      NextChunk(s, m);
      DropNewlinesConcat(Concatenated(parts, NumberedNames(m - 1)), chunk + "\n");
    }
  }

  lemma NextChunk(s: string, m: nat)
    requires m > 0
    ensures s[..if CHUNK * (m - 1) <= |s| then CHUNK * (m - 1) else |s|] + Chunk(s, CHUNK, m - 1)
         == s[..if CHUNK * m <= |s| then CHUNK * m else |s|]
  {
  }

  lemma PartIs(parts: map<string, string>, s: string, n: nat, i: nat)
    requires PartsOf(parts, s, n) && i < n
    ensures PartName(i + 1) in parts && parts[PartName(i + 1)] == Chunk(s, CHUNK, i) + "\n"
  {
    hide PartName;
    assert IsPart(parts, s, i);
  }

  /** Up to 9999 parts the lexical order of the names is their numeric order. */
  lemma LexicalIsNumeric(parts: map<string, string>, s: string, n: nat)
    requires PartsOf(parts, s, n) && n <= 9999
    ensures Ascending(parts.Keys) == NumberedNames(n)
  {
    hide PartName, Chunk, Ascending;
    var names := NumberedNames(n);
    forall i, j | 0 <= i < j < n ensures Less(names[i], names[j]) {
      FourDigitsAscend(i + 1, j + 1);
    }
    AscendingUnique(names, parts.Keys);
  }

  lemma FourDigitsAscend(i: nat, j: nat)
    requires i < j <= 9999
    ensures Less(PartName(i), PartName(j))
  {
    hide PartName;
    PartNameValue(i);
    PartNameValue(j);
    SameLengthOrder(PartName(i), PartName(j));
  }

  /** Up to 9999 chunks, joining the parts in lexical order and dropping line ends gives back exactly the text. */
  lemma Reassembly(parts: map<string, string>, s: string)
    requires '\n' !in s && PartsOf(parts, s, ChunkCount(s, CHUNK)) && ChunkCount(s, CHUNK) <= 9999
    ensures DropNewlines(LexicalCat(parts)) == s
  {
    hide PartName, Chunk, PartsOf, Ascending;
    var n := ChunkCount(s, CHUNK);
    LexicalIsNumeric(parts, s, n);
    NumericOrder(parts, s, n, n);
    assert s[..|s|] == s;
  }

  // ----- Past the bound -----

  /** Once there is a part 10000 it is read right after the first thousand. */
  function FirstNames(): (names: seq<string>)
    ensures |names| == 1001
  {
    NumberedNames(1000) + [PartName(10000)]
  }

  lemma LongerIsLater(a: string, c: char)
    ensures Less(a, a + [c])
  {
    if a != "" {
      LongerIsLater(a[1..], c);
      assert (a + [c])[1..] == a[1..] + [c];
    }
  }

  lemma {:induction false} ExtendedStaysLess(a: string, b: string, c: char)
    requires |a| == |b| && Less(a, b)
    ensures Less(a + [c], b)
  {
    if a[0] == b[0] {
      ExtendedStaysLess(a[1..], b[1..], c);
      assert (a + [c])[1..] == a[1..] + [c];
    }
  }

  lemma TenThousand()
    ensures PartName(10000) == PartName(1000) + "0"
  {
    assert Decimal(10000) == Decimal(1000) + "0";
    FourDigits(1000);
    PartNameValue(1000);
    PartNameValue(10000);
  }

  /** Part 10000 comes before every other part after the first thousand. */
  lemma {:induction false} ComesNext(n: nat)
    requires n > 1000 && n != 10000
    ensures Less(PartName(10000), PartName(n))
  {
    hide Less, PartName;
    TenThousand();
    if n <= 9999 {
      FourDigitsAscend(1000, n);
      PartNameValue(1000);
      PartNameValue(n);
      ExtendedStaysLess(PartName(1000), PartName(n), '0');
    } else {
      LongName(n);
      LongerIsLater(PartName(n / 10), PartName(n)[|PartName(n)| - 1]);
      LessIsTotalOrder();
      if n / 10 < 10000 {
        FiveDigits(n);
        FiveDigits(10000);
        PartNameValue(10000);
        PartNameValue(n);
        SameLengthOrder(PartName(10000), PartName(n));
      } else if n / 10 > 10000 {
        ComesNext(n / 10);
      }
    }
  }

  lemma LongName(n: nat)
    requires n >= 10000
    ensures PartName(n) == PartName(n / 10) + [PartName(n)[|PartName(n)| - 1]]
  {
    FourDigits(n);
    DecimalLength(n / 10, 3);
    assert PowerOfTen(3) == 1000;
  }

  lemma FiveDigits(n: nat)
    requires 10000 <= n < 100000
    ensures |PartName(n)| == 5
  {
    FourDigits(n);
    DecimalLength(n, 5);
    assert PowerOfTen(3) == 1000;
    assert PowerOfTen(5) == 100000;
  }

  lemma FirstNamesAscend()
    ensures StrictlyOrdered(FirstNames())
  {
    hide PartName, Less;
    var names := FirstNames();
    LessIsTotalOrder();
    TenThousand();
    LongerIsLater(PartName(1000), '0');
    forall i, j | 0 <= i < j < 1001 ensures Less(names[i], names[j]) {
      if j < 1000 {
        FourDigitsAscend(i + 1, j + 1);
      } else if i < 999 {
        FourDigitsAscend(i + 1, 1000);
      }
    }
  }

  /** Names below everything else come first in a listing. */
  lemma ListedFirst(first: seq<string>, keys: set<string>)
    requires StrictlyOrdered(first) && forall x :: x in first ==> x in keys
    requires forall x, y :: x in first && y in keys && y !in first ==> Less(x, y)
    ensures first <= Ascending(keys)
  {
    hide Less;
    var others := keys - set x | x in first;
    var rest := Ascending(others);
    AscendingOrder(others);
    forall i, j | 0 <= i < j < |first + rest| ensures Less((first + rest)[i], (first + rest)[j]) {
      if i < |first| <= j {
        assert first[i] in first && rest[j - |first|] in rest;
      }
    }
    assert forall x :: x in first + rest <==> x in first || x in rest;
    AscendingUnique(first + rest, keys);
  }

  lemma MisorderedListing(parts: map<string, string>, s: string, n: nat)
    requires n >= 10000 && PartsOf(parts, s, n)
    ensures FirstNames() <= Ascending(parts.Keys)
  {
    hide PartName, Chunk, Ascending, StrictlyOrdered, Less;
    var first, numbered := FirstNames(), NumberedNames(n);
    FirstNamesAscend();
    forall x | x in first ensures x in parts.Keys {
      var i :| 0 <= i < 1001 && first[i] == x;
      assert numbered[if i < 1000 then i else 9999] == x;
    }
    forall x, y | x in first && y in parts.Keys && y !in first ensures Less(x, y) {
      var i :| 0 <= i < 1001 && first[i] == x;
      var j :| 0 <= j < n && numbered[j] == y;
      forall k | 0 <= k < 1001 ensures first[k] != y {
        assert first[k] in first;
      }
      assert forall k :: 0 <= k < 1000 ==> first[k] == numbered[k];
      assert first[1000] == numbered[9999];
      ComesNext(j + 1);
      LessIsTotalOrder();
      FirstNamesAscend();
      BelowTheLast(first, i);
    }
    ListedFirst(first, parts.Keys);
  }

  lemma BelowTheLast(names: seq<string>, i: nat)
    requires StrictlyOrdered(names) && i < |names|
    ensures names[i] == names[|names| - 1] || Less(names[i], names[|names| - 1])
  {
    hide Less;
  }

  lemma {:induction false} ConcatenatedParts(parts: map<string, string>, a: seq<string>, b: seq<string>)
    requires forall name :: name in a + b ==> name in parts
    ensures (forall name :: name in a ==> name in parts) && forall name :: name in b ==> name in parts
    ensures Concatenated(parts, a + b) == Concatenated(parts, a) + Concatenated(parts, b)
  {
    assert forall name :: name in a || name in b ==> name in a + b;
    if b == [] {
      assert a + b == a;
    } else {
      var init := b[..|b| - 1];
      assert (a + b)[..|a + b| - 1] == a + init;
      assert forall name :: name in a + init ==> name in a + b;
      ConcatenatedParts(parts, a, init);
    }
  }

  /**
   * From 10000 chunks on, the text comes back wrong whenever its ten-thousandth chunk does not start with the character
   * that follows the first thousand chunks.
   */
  lemma MisreadBeyondBound(parts: map<string, string>, s: string, n: nat)
    requires '\n' !in s && n >= 10000 && ChunkCount(s, CHUNK) == n && PartsOf(parts, s, n)
    requires s[CHUNK * 9999] != s[CHUNK * 1000]
    ensures DropNewlines(LexicalCat(parts)) != s
  {
    hide PartName, PartsOf, Ascending, DropNewlines, Concatenated;
    MisorderedListing(parts, s, n);
    var names := Ascending(parts.Keys);
    var a, b := FirstNames(), names[1001..];
    assert names == a + b;
    ConcatenatedParts(parts, a, b);
    ConcatenatedParts(parts, NumberedNames(1000), [PartName(10000)]);
    NumericOrder(parts, s, n, 1000);
    PartIs(parts, s, n, 9999);
    OnePart(parts, PartName(10000));
    var chunk := Chunk(s, CHUNK, 9999);
    assert '\n' !in chunk;
    NoNewlines(chunk);
    var first, second, rest :=
      Concatenated(parts, NumberedNames(1000)), Concatenated(parts, [PartName(10000)]), Concatenated(parts, b);
    DropNewlinesConcat(first + second, rest);
    DropNewlinesConcat(first, second);
    var got := DropNewlines(LexicalCat(parts));
    assert got == s[..CHUNK * 1000] + chunk + DropNewlines(rest);
    assert chunk[0] == s[CHUNK * 9999];
    assert got[CHUNK * 1000] == chunk[0];
  }

  /** The parts the upload of a text leaves on the host. */
  function BuiltParts(s: string, n: nat): map<string, string> {
    if n == 0 then map[] else BuiltParts(s, n - 1)[PartName(n) := Chunk(s, CHUNK, n - 1) + "\n"]
  }

  lemma {:induction false} BuiltPartsAre(s: string, n: nat)
    ensures PartsOf(BuiltParts(s, n), s, n)
  {
    hide PartName, Chunk, PartsOf;
    if n == 0 {
      NoParts(s);
    } else {
      BuiltPartsAre(s, n - 1);
      NextPart(BuiltParts(s, n - 1), s, n - 1);
    }
  }

  /** n full chunks of base64 text, alike but for the character after the first thousand chunks. */
  function FailingText(n: nat): (s: string)
    ensures |s| == CHUNK * n && '\n' !in s
  {
    seq(CHUNK * n, i => if i == CHUNK * 1000 then 'B' else 'A')
  }

  /** The text comes back from its uploaded parts. */
  ghost predicate Reassembles(s: string) {
    DropNewlines(LexicalCat(BuiltParts(s, ChunkCount(s, CHUNK)))) == s
  }

  lemma FailingTextFails(n: nat)
    requires n >= 10000
    ensures ChunkCount(FailingText(n), CHUNK) == n && !Reassembles(FailingText(n))
  {
    hide PartsOf, LexicalCat, DropNewlines, BuiltParts;
    var s := FailingText(n);
    assert (CHUNK * n + CHUNK - 1) / CHUNK == n;
    BuiltPartsAre(s, n);
    MisreadBeyondBound(BuiltParts(s, n), s, n);
  }

  /**
   * The exact bound: every text without line ends that makes n chunks comes back from its parts if and only if n is at
   * most 9999.
   */
  lemma ReassemblyBound(n: nat)
    requires n > 0
    ensures (forall s :: '\n' !in s && ChunkCount(s, CHUNK) == n ==> Reassembles(s)) <==> n <= 9999
  {
    hide PartsOf, LexicalCat, DropNewlines, BuiltParts, FailingText, ChunkCount;
    if n <= 9999 {
      forall s | '\n' !in s && ChunkCount(s, CHUNK) == n ensures Reassembles(s) {
        BuiltPartsAre(s, n);
        Reassembly(BuiltParts(s, n), s);
      }
    } else {
      FailingTextFails(n);
    }
  }

  /** The parts on the host are determined by the text, so the bound is about every completed upload. */
  lemma PartsAreDetermined(parts: map<string, string>, s: string, n: nat)
    requires PartsOf(parts, s, n)
    ensures parts == BuiltParts(s, n)
  {
    hide PartName, Chunk;
    var built := BuiltParts(s, n);
    BuiltPartsAre(s, n);
    forall name | name in parts ensures name in built && parts[name] == built[name] {
      var i :| 0 <= i < n && NumberedNames(n)[i] == name;
      assert IsPart(parts, s, i) && IsPart(built, s, i);
    }
  }

  lemma OnePart(parts: map<string, string>, name: string)
    requires name in parts
    ensures Concatenated(parts, [name]) == parts[name]
  {
    assert [name][..0] == [];
  }

  // ----- The inline form -----

  /** `_encoded_bash_commands`: every chunk is appended in turn. */
  method InlineText(encoded: string) returns (text: string)
    ensures '\n' !in encoded ==> DropNewlines(text) == encoded
  {
    hide DropNewlines;
    text := "";
    NoNewlines("");
    var index := 0;
    while index < |encoded|
      invariant '\n' !in encoded ==>
        DropNewlines(text) == encoded[..if index <= |encoded| then index else |encoded|]
      invariant index >= 0
    {
      var to := if index + INLINE_CHUNK <= |encoded| then index + INLINE_CHUNK else |encoded|;
      var chunk := encoded[index..to];
      DropNewlinesConcat(text, chunk + "\n");
      if '\n' !in encoded {
        assert '\n' !in chunk;
        NoNewlines(chunk);
        assert encoded[..index] + chunk == encoded[..to];
      }
      text := text + (chunk + "\n");
      index := index + INLINE_CHUNK;
    }
    assert encoded[..|encoded|] == encoded;
  }
}
