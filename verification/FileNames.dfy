/**
 * Names of sealed files and the restart lookup: files are named by zero-padded start
 * and end height, and the resume point is read off the lexicographically last name.
 */
module FileNames {
  import opened Basics

  const NAME_PREFIX := "block-"
  const PAD_WIDTH := 7
  const HEIGHT_LIMIT := 1000_0000

  // ---------- decimal rendering ----------

  function Digit(d: nat): char
    requires d < 10
  {
    ['0', '1', '2', '3', '4', '5', '6', '7', '8', '9'][d]
  }

  predicate IsDigit(c: char) { '0' <= c <= '9' }

  ghost function Pow10(w: nat): nat {
    if w == 0 then 1 else 10 * Pow10(w - 1)
  }

  /** The last `w` decimal digits of `n`. */
  function Decimal(n: nat, w: nat): (s: string)
    ensures |s| == w
    ensures forall i :: 0 <= i < w ==> IsDigit(s[i])
  {
    if w == 0 then "" else Decimal(n / 10, w - 1) + [Digit(n % 10)]
  }

  function NumDigits(n: nat): nat {
    if n < 10 then 1 else 1 + NumDigits(n / 10)
  }

  /** The verb %07d: at least seven digits, more when the number needs more. */
  function Padded(n: nat): string {
    if n < HEIGHT_LIMIT then Decimal(n, PAD_WIDTH) else Decimal(n, NumDigits(n))
  }

  function ParseDecimal(s: string): nat
    requires forall i :: 0 <= i < |s| ==> IsDigit(s[i])
  {
    if s == "" then 0
    else
      assert IsDigit(s[|s| - 1]);
      10 * ParseDecimal(s[..|s| - 1]) + (s[|s| - 1] as int - '0' as int)
  }

  lemma {:induction false} DecimalRoundTrip(n: nat, w: nat)
    requires n < Pow10(w)
    ensures ParseDecimal(Decimal(n, w)) == n
    decreases w
  {
    if w > 0 {
      DecimalRoundTrip(n / 10, w - 1);
      assert Decimal(n, w)[..w - 1] == Decimal(n / 10, w - 1);
    }
  }

  lemma {:induction false} ParseBound(s: string)
    requires forall i :: 0 <= i < |s| ==> IsDigit(s[i])
    ensures ParseDecimal(s) < Pow10(|s|)
    decreases |s|
  {
    if s != "" {
      ParseBound(s[..|s| - 1]);
    }
  }

  lemma PowerOfTen()
    ensures Pow10(7) == HEIGHT_LIMIT
  {
    assert Pow10(2) == 10 * Pow10(1);
    assert Pow10(4) == 10 * Pow10(3);
    assert Pow10(6) == 10 * Pow10(5);
  }

  // ---------- the order the directory listing is sorted in ----------

  predicate Less(a: string, b: string) {
    b != "" && (a == "" || a[0] < b[0] || (a[0] == b[0] && Less(a[1..], b[1..])))
  }

  lemma {:induction false} LessSkips(p: string, a: string, b: string)
    ensures Less(p + a, p + b) == Less(a, b)
    decreases |p|
  {
    if p == "" {
      assert p + a == a && p + b == b;
    } else {
      LessSkips(p[1..], a, b);
      assert (p + a)[1..] == p[1..] + a && (p + b)[1..] == p[1..] + b;
    }
  }

  lemma {:induction false} LessAsymmetric(a: string, b: string)
    ensures !(Less(a, b) && Less(b, a))
    decreases |a|
  {
    if a != "" && b != "" {
      LessAsymmetric(a[1..], b[1..]);
    }
  }

  lemma {:induction false} LessTransitive(a: string, b: string, c: string)
    requires Less(a, b) && Less(b, c)
    ensures Less(a, c)
    decreases |a|
  {
    if a != "" && a[0] == b[0] == c[0] {
      LessTransitive(a[1..], b[1..], c[1..]);
    }
  }

  /** Fixed-width decimals sort like the numbers they stand for, whatever follows them. */
  lemma {:induction false} DecimalOrder(a: nat, b: nat, w: nat, x: string, y: string)
    requires a < b < Pow10(w)
    ensures Less(Decimal(a, w) + x, Decimal(b, w) + y)
    decreases w
  {
    var p, q := Decimal(a / 10, w - 1), Decimal(b / 10, w - 1);
    var x', y' := [Digit(a % 10)] + x, [Digit(b % 10)] + y;
    assert Decimal(a, w) + x == p + x' && Decimal(b, w) + y == q + y';
    if a / 10 < b / 10 {
      DecimalOrder(a / 10, b / 10, w - 1, x', y');
    } else {
      LessSkips(p, x', y');
    }
  }

  // ---------- file names ----------

  function Name(start: nat, end: nat, suffix: string): string {
    NAME_PREFIX + Padded(start) + "-" + Padded(end) + suffix
  }

  lemma FirstHeights()
    ensures Padded(0) == "0000000" && Padded(1999) == "0001999"
  {
    assert Decimal(0, 1) == "0" && Decimal(0, 2) == "00" && Decimal(0, 3) == "000";
    assert Decimal(0, 4) == "0000" && Decimal(0, 5) == "00000" && Decimal(0, 6) == "000000";
    assert Decimal(1, 4) == "0001" && Decimal(19, 5) == "00019" && Decimal(199, 6) == "000199";
  }

  /** The first file of the compact filters on a network with 2000 entries a file. */
  lemma FirstName()
    ensures Name(0, 1999, ".cfilter") == "block-0000000-0001999.cfilter"
  {
    FirstHeights();
    assert "block-" + "0000000" + "-" + "0001999" + ".cfilter" == "block-0000000-0001999.cfilter";
  }

  /** The extract pattern at one position: prefix, 7 digits, dash, 7 digits, suffix. */
  predicate MatchesAt(name: string, i: nat, suffix: string) {
    && i + 21 + |suffix| <= |name|
    && name[i..i + 6] == NAME_PREFIX
    && (forall j :: i + 6 <= j < i + 13 ==> IsDigit(name[j]))
    && name[i + 13] == '-'
    && (forall j :: i + 14 <= j < i + 21 ==> IsDigit(name[j]))
    && name[i + 21..i + 21 + |suffix|] == suffix
  }

  /** The captured end height of the leftmost match. */
  function Extract(name: string, suffix: string, from: nat): Option<nat>
    decreases |name| - from
  {
    if MatchesAt(name, from, suffix) then Some(ParseDecimal(name[from + 14..from + 21]))
    else if from < |name| then Extract(name, suffix, from + 1)
    else None
  }

  datatype Lookup = NoFiles | Last(end: nat) | Unparseable

  /** Some name that no other listed name is greater than. */
  ghost predicate IsLast(files: seq<string>, name: string) {
    name in files && forall f :: f in files ==> !Less(name, f)
  }

  ghost predicate LookupSpec(files: seq<string>, suffix: string, r: Lookup) {
    if files == [] then r == NoFiles
    else exists last :: IsLast(files, last) && r == FromName(last, suffix)
  }

  function FromName(name: string, suffix: string): Lookup {
    match Extract(name, suffix, 0)
    case Some(n) => Last(n)
    case None => Unparseable
  }

  /** lastFile: the listing is sorted and the last name decides. */
  method LastFile(files: seq<string>, suffix: string) returns (r: Lookup)
    ensures LookupSpec(files, suffix, r)
  {
    if files == [] {
      return NoFiles;
    }
    var last := files[0];
    LessAsymmetric(last, last);
    assert files[..1] == [last];
    for i := 1 to |files|
      invariant IsLast(files[..i], last)
    {
      if Less(last, files[i]) {
        forall f | f in files[..i] ensures !Less(files[i], f) {
          LessAsymmetric(f, files[i]);
          if Less(files[i], f) {
            LessTransitive(last, files[i], f);
          }
        }
        last := files[i];
        LessAsymmetric(last, last);
      }
      assert files[..i + 1] == files[..i] + [files[i]];
    }
    assert files[..|files|] == files;
    r := FromName(last, suffix);
  }

  // ---------- the lookup finds the last sealed file ----------

  /** The start heights of the files that cover `0..sealed-1`, `size` entries each. */
  ghost predicate SealedStart(s: nat, size: nat, sealed: nat)
    requires size > 0
  {
    s % size == 0 && s + size <= sealed
  }

  /** The listing holds one name per sealed file and nothing else. */
  ghost predicate Lists(files: seq<string>, nameOf: nat -> string, size: nat, sealed: nat)
    requires size > 0
  {
    && (forall i :: 0 <= i < |files| ==> exists s: nat :: SealedStart(s, size, sealed) && files[i] == nameOf(s))
    && (forall s: nat :: SealedStart(s, size, sealed) ==> nameOf(s) in files)
  }

  function Namer(size: nat, suffix: string): nat -> string
    requires size > 0
  {
    (s: nat) => Name(s, s + size - 1, suffix)
  }

  lemma ExtractName(start: nat, end: nat, suffix: string)
    requires start < HEIGHT_LIMIT && end < HEIGHT_LIMIT
    ensures Extract(Name(start, end, suffix), suffix, 0) == Some(end)
  {
    var a, b := Padded(start), Padded(end);
    var name := Name(start, end, suffix);
    assert name == NAME_PREFIX + (a + ("-" + (b + suffix)));
    assert name[0..6] == NAME_PREFIX;
    assert forall j :: 6 <= j < 13 ==> name[j] == a[j - 6];
    assert name[14..21] == b;
    assert forall j :: 14 <= j < 21 ==> name[j] == b[j - 14];
    assert name[21..21 + |suffix|] == suffix;
    PowerOfTen();
    DecimalRoundTrip(end, PAD_WIDTH);
  }

  lemma {:induction false} ExtractBound(name: string, suffix: string, from: nat)
    requires Extract(name, suffix, from).Some?
    ensures Extract(name, suffix, from).value < HEIGHT_LIMIT
    decreases |name| - from
  {
    if MatchesAt(name, from, suffix) {
      ParseBound(name[from + 14..from + 21]);
      PowerOfTen();
    } else {
      ExtractBound(name, suffix, from + 1);
    }
  }

  lemma NameOrder(s: nat, t: nat, size: nat, suffix: string)
    requires size > 0 && s < t && t + size <= HEIGHT_LIMIT
    ensures Less(Name(s, s + size - 1, suffix), Name(t, t + size - 1, suffix))
  {
    var x, y := NameTail(s, s + size - 1, suffix), NameTail(t, t + size - 1, suffix);
    PaddedOrder(s, t, x, y);
    LessSkips(NAME_PREFIX, Padded(s) + x, Padded(t) + y);
  }

  /** What follows the padded start height in a name. */
  function NameTail(start: nat, end: nat, suffix: string): (tail: string)
    ensures Name(start, end, suffix) == NAME_PREFIX + (Padded(start) + tail)
  {
    "-" + Padded(end) + suffix
  }

  lemma PaddedOrder(s: nat, t: nat, x: string, y: string)
    requires s < t < HEIGHT_LIMIT
    ensures Less(Padded(s) + x, Padded(t) + y)
  {
    PowerOfTen();
    DecimalOrder(s, t, PAD_WIDTH, x, y);
  }

  lemma TopStart(size: nat, sealed: nat)
    requires size > 0 && sealed % size == 0 && sealed > 0
    ensures sealed >= size && SealedStart(sealed - size, size, sealed)
    ensures forall s: nat :: SealedStart(s, size, sealed) ==> s <= sealed - size
  {
    if sealed < size {
      AlignedGap(0, sealed, size);
    }
    ModStep(sealed - size, size);
  }

  lemma LastIsTop(files: seq<string>, nameOf: nat -> string, size: nat, sealed: nat, last: string)
    requires size > 0 && sealed % size == 0 && 0 < sealed
    requires forall s: nat, t: nat :: s < t && SealedStart(t, size, sealed) ==> Ordered(nameOf, s, t)
    requires Lists(files, nameOf, size, sealed) && IsLast(files, last)
    ensures sealed >= size && last == nameOf(sealed - size)
  {
    TopStart(size, sealed);
    var i :| 0 <= i < |files| && files[i] == last;
    var s: nat :| SealedStart(s, size, sealed) && files[i] == nameOf(s);
    assert s < sealed - size ==> Ordered(nameOf, s, sealed - size);
  }

  predicate Ordered(nameOf: nat -> string, s: nat, t: nat) {
    Less(nameOf(s), nameOf(t))
  }

  lemma NamesSort(size: nat, sealed: nat, suffix: string)
    requires size > 0 && sealed <= HEIGHT_LIMIT
    ensures forall s: nat, t: nat :: s < t && SealedStart(t, size, sealed) ==> Ordered(Namer(size, suffix), s, t)
  {
    forall s: nat, t: nat | s < t && SealedStart(t, size, sealed) ensures Ordered(Namer(size, suffix), s, t) {
      NameOrder(s, t, size, suffix);
    }
  }

  lemma TopName(size: nat, sealed: nat, suffix: string)
    requires 0 < size <= sealed <= HEIGHT_LIMIT
    ensures FromName(Namer(size, suffix)(sealed - size), suffix) == Last(sealed - 1)
  {
    var name := Name(sealed - size, sealed - 1, suffix);
    ExtractName(sealed - size, sealed - 1, suffix);
    assert FromName(name, suffix) == Last(sealed - 1);
    assert Namer(size, suffix)(sealed - size) == name;
  }

  lemma NameBound(name: string, suffix: string)
    ensures FromName(name, suffix).Last? ==> FromName(name, suffix).end < HEIGHT_LIMIT
  {
    if Extract(name, suffix, 0).Some? {
      ExtractBound(name, suffix, 0);
    }
  }

  /**
   * The restart lookup returns the end of the last sealed file exactly as long as the
   * heights fit the seven digits of the file names.
   */
  lemma LookupFindsTheEnd(files: seq<string>, size: nat, sealed: nat, suffix: string, r: Lookup)
    requires size > 0 && sealed % size == 0
    requires Lists(files, Namer(size, suffix), size, sealed) && LookupSpec(files, suffix, r)
    ensures sealed == 0 <==> r == NoFiles
    ensures sealed > 0 ==> (r == Last(sealed - 1) <==> sealed <= HEIGHT_LIMIT)
  {
    var nameOf := Namer(size, suffix);
    if sealed > 0 {
      TopStart(size, sealed);
      assert nameOf(sealed - size) in files;
      var last :| IsLast(files, last) && r == FromName(last, suffix);
      NameBound(last, suffix);
      if sealed <= HEIGHT_LIMIT {
        NamesSort(size, sealed, suffix);
        LastIsTop(files, nameOf, size, sealed, last);
        TopName(size, sealed, suffix);
      }
    }
  }

  /** The directory of a producer whose files cover `0..sealed-1` lists as `files`. */
  ghost predicate ListsSealed(files: seq<string>, suffix: string, size: nat, sealed: nat) {
    size > 0 && sealed % size == 0 && Lists(files, Namer(size, suffix), size, sealed)
  }

  /** The resume point of such a directory; past the seven digits nothing is promised. */
  method ResumePoint(files: seq<string>, suffix: string, size: nat, ghost sealed: nat) returns (r: Lookup)
    requires ListsSealed(files, suffix, size, sealed)
    ensures sealed == 0 <==> r == NoFiles
    ensures sealed > 0 ==> (r == Last(sealed - 1) <==> sealed <= HEIGHT_LIMIT)
  {
    r := LastFile(files, suffix);
    LookupFindsTheEnd(files, size, sealed, suffix, r);
  }
}
