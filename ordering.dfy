// The gallery's ordering in app/page.tsx: `parseN` extracts the number in the
// first `g-<digits>.` of a path, and a copy of the image list is sorted by it.
module Ordering {
  import opened Common
  import opened Text

  /** `Number.MAX_SAFE_INTEGER`, the key of a path without a match. */
  const MaxSafeInteger: nat := 9007199254740991

  /** Length of the run of digits starting at `i`. */
  function DigitRun(s: string, i: nat): (k: nat)
    requires i <= |s|
    ensures i + k <= |s|
    ensures forall j :: i <= j < i + k ==> IsDigit(s[j])
    ensures i + k == |s| || !IsDigit(s[i + k])
    decreases |s| - i
  {
    if i < |s| && IsDigit(s[i]) then 1 + DigitRun(s, i + 1) else 0
  }

  /**
   * The pattern `/g-(\d+)\./` matches at position `p`: "g-", one or more
   * digits, then '.'. A greedy `\d+` must stop at the end of the digit run,
   * so backtracking never finds another match at the same position.
   */
  predicate MatchesAt(s: string, p: nat) {
    p + 2 <= |s| && s[p] == 'g' && s[p + 1] == '-' &&
    var k := DigitRun(s, p + 2);
    k >= 1 && p + 2 + k < |s| && s[p + 2 + k] == '.'
  }

  /** The captured digits of a match at `p`. */
  function Captured(s: string, p: nat): (ds: string)
    requires MatchesAt(s, p)
    ensures AllDigits(ds) && ds != []
  {
    s[p + 2..p + 2 + DigitRun(s, p + 2)]
  }

  /** The leftmost match at or after `p`, as `String.prototype.match` finds it. */
  function FindMatch(s: string, p: nat): (r: Option<nat>)
    requires p <= |s|
    ensures r.Some? ==> p <= r.value < |s| && MatchesAt(s, r.value)
    ensures r.Some? ==> forall q :: p <= q < r.value ==> !MatchesAt(s, q)
    ensures r.None? ==> forall q :: p <= q ==> !MatchesAt(s, q)
    decreases |s| - p
  {
    if p == |s| then None
    else if MatchesAt(s, p) then Some(p)
    else FindMatch(s, p + 1)
  }

  /**
   * `parseN`: the value of the digits of the leftmost match, or
   * `MAX_SAFE_INTEGER` when the path has no match.
   */
  function ParseN(s: string): nat {
    match FindMatch(s, 0)
    case None => MaxSafeInteger
    case Some(p) => DecimalValue(Captured(s, p))
  }

  /** A path with no `g-<digits>.` anywhere gets `MAX_SAFE_INTEGER`. */
  lemma ParseNNoMatch(s: string)
    requires forall q: nat :: !MatchesAt(s, q)
    ensures ParseN(s) == MaxSafeInteger
  {
  }

  /** A path whose leftmost match is at `p` gets the value of the digits captured there. */
  lemma ParseNLeftmost(s: string, p: nat)
    requires MatchesAt(s, p)
    requires forall q: nat :: q < p ==> !MatchesAt(s, q)
    ensures ParseN(s) == DecimalValue(Captured(s, p))
  {
  }

  /** No "g-" starts inside `prefix` (so no match can begin there). */
  predicate NoMarker(prefix: string) {
    forall q :: 0 <= q < |prefix| - 1 ==> !(prefix[q] == 'g' && prefix[q + 1] == '-')
  }

  lemma {:induction false} DigitRunOf(s: string, i: nat, ds: string)
    requires i + |ds| < |s| && s[i..i + |ds|] == ds && AllDigits(ds) && !IsDigit(s[i + |ds|])
    ensures DigitRun(s, i) == |ds|
    decreases |ds|
  {
    if ds != [] {
      assert s[i] == ds[0];
      assert s[i + 1..i + 1 + |ds[1..]|] == ds[1..];
      DigitRunOf(s, i + 1, ds[1..]);
    }
  }

  /** `g-<ds>.` written at `p` is a match there that captures `ds`. */
  lemma MatchOf(s: string, p: nat, ds: string)
    requires ds != [] && AllDigits(ds) && p + 2 + |ds| < |s|
    requires s[p] == 'g' && s[p + 1] == '-' && s[p + 2..p + 2 + |ds|] == ds && s[p + 2 + |ds|] == '.'
    ensures MatchesAt(s, p) && Captured(s, p) == ds
  {
    DigitRunOf(s, p + 2, ds);
  }

  /** A match cannot start inside a marker-free prefix that is followed by 'g'. */
  lemma NoMatchIn(s: string, prefix: string)
    requires NoMarker(prefix) && |prefix| < |s| && s[..|prefix|] == prefix && s[|prefix|] == 'g'
    ensures forall q: nat :: q < |prefix| ==> !MatchesAt(s, q)
  {
    forall q: nat | q < |prefix| ensures !MatchesAt(s, q) {
      assert s[q] == prefix[q];
      if q + 1 < |prefix| {
        assert s[q + 1] == prefix[q + 1];
      }
    }
  }

  /**
   * A path shaped like the gallery's files, `<prefix>g-<digits>.<rest>`, has
   * the key its digits denote.
   */
  lemma ParseNOfName(prefix: string, ds: string, rest: string)
    requires NoMarker(prefix) && ds != [] && AllDigits(ds)
    requires rest != [] && rest[0] == '.'
    ensures ParseN(prefix + "g-" + ds + rest) == DecimalValue(ds)
  {
    var s := prefix + "g-" + ds + rest;
    var p := |prefix|;
    assert s[..p] == prefix;
    assert s[p] == 'g' && s[p + 1] == '-';
    assert s[p + 2..p + 2 + |ds|] == ds;
    assert s[p + 2 + |ds|] == rest[0];
    MatchOf(s, p, ds);
    NoMatchIn(s, prefix);
    ParseNLeftmost(s, p);
  }

  /** The directory of the gallery's files. */
  const GalleryDir: string := "/images/gallery/"

  lemma GalleryDirNoMarker()
    ensures NoMarker(GalleryDir)
  {
    forall q | 0 <= q < |GalleryDir| - 1
      ensures !(GalleryDir[q] == 'g' && GalleryDir[q + 1] == '-')
    {
      assert GalleryDir[q] == 'g' ==> q == 4 || q == 8;
    }
  }

  /** The file names the gallery ships, `/images/gallery/g-NN.JPG`, get the key `NN`. */
  lemma GalleryFileKey(n: nat)
    ensures ParseN(GalleryDir + "g-" + PadStart(Decimal(n), 2, '0') + ".JPG") == n
  {
    var ds := PadStart(Decimal(n), 2, '0');
    PaddedReadsBack(n);
    GalleryDirNoMarker();
    ParseNOfName(GalleryDir, ds, ".JPG");
  }

  /** Keys never decrease along the sequence. */
  predicate SortedBy<T>(s: seq<T>, key: T -> nat) {
    forall i, j :: 0 <= i < j < |s| ==> key(s[i]) <= key(s[j])
  }

  /** Every key in `s` is at least `b`. */
  predicate AtLeast<T>(s: seq<T>, key: T -> nat, b: nat) {
    forall j :: 0 <= j < |s| ==> b <= key(s[j])
  }

  /** Insert `x` before the first element whose key is not smaller than its own. */
  function Insert<T>(x: T, t: seq<T>, key: T -> nat): seq<T> {
    if t == [] then [x]
    else if key(x) <= key(t[0]) then [x] + t
    else [t[0]] + Insert(x, t[1..], key)
  }

  /** Inserting adds exactly `x` to the elements. */
  lemma {:induction false} InsertPermutes<T>(x: T, t: seq<T>, key: T -> nat)
    ensures multiset(Insert(x, t, key)) == multiset(t) + multiset{x}
    decreases |t|
  {
    if t != [] && key(x) > key(t[0]) {
      InsertPermutes(x, t[1..], key);
      assert t == [t[0]] + t[1..];
    }
  }

  lemma ConsSorted<T>(y: T, r: seq<T>, key: T -> nat, b: nat)
    requires SortedBy(r, key) && AtLeast(r, key, key(y)) && b <= key(y)
    ensures SortedBy([y] + r, key) && AtLeast([y] + r, key, b)
  {
    var s := [y] + r;
    forall i, j | 0 <= i < j < |s| ensures key(s[i]) <= key(s[j]) {
      assert s[j] == r[j - 1];
      if i > 0 {
        assert s[i] == r[i - 1];
      }
    }
  }

  /** Inserting into a sorted sequence keeps it sorted, and keeps any lower bound. */
  lemma {:induction false} InsertSorted<T>(x: T, t: seq<T>, key: T -> nat, b: nat)
    requires SortedBy(t, key) && AtLeast(t, key, b) && b <= key(x)
    ensures SortedBy(Insert(x, t, key), key) && AtLeast(Insert(x, t, key), key, b)
    decreases |t|
  {
    if t == [] {
    } else if key(x) <= key(t[0]) {
      ConsSorted(x, t, key, b);
    } else {
      assert SortedBy(t[1..], key) && AtLeast(t[1..], key, key(t[0]));
      InsertSorted(x, t[1..], key, key(t[0]));
      ConsSorted(t[0], Insert(x, t[1..], key), key, b);
    }
  }

  /**
   * `[...IMAGES].sort((a, b) => key(a) - key(b))`: an insertion sort by key,
   * stable like `Array.prototype.sort`. It builds a new sequence; the input
   * is a value and is left as it was.
   */
  function SortBy<T>(s: seq<T>, key: T -> nat): (r: seq<T>)
    ensures multiset(r) == multiset(s)
    ensures SortedBy(r, key)
  {
    if s == [] then []
    else
      assert s == [s[0]] + s[1..];
      var r' := SortBy(s[1..], key);
      InsertSorted(s[0], r', key, 0);
      InsertPermutes(s[0], r', key);
      Insert(s[0], r', key)
  }

  /** The gallery's `ordered`: the images sorted by `parseN`. */
  function Ordered(images: seq<string>): (r: seq<string>)
    ensures multiset(r) == multiset(images)
    ensures SortedBy(r, ParseN)
  {
    SortBy(images, ParseN)
  }

  /** The elements of `s` whose key is `k`, in their order. */
  function WithKey<T>(s: seq<T>, key: T -> nat, k: nat): seq<T> {
    if s == [] then []
    else (if key(s[0]) == k then [s[0]] else []) + WithKey(s[1..], key, k)
  }

  lemma {:induction false} WithKeyAppend<T>(a: seq<T>, b: seq<T>, key: T -> nat, k: nat)
    ensures WithKey(a + b, key, k) == WithKey(a, key, k) + WithKey(b, key, k)
    decreases |a|
  {
    if a == [] {
      assert a + b == b;
    } else {
      var h := if key(a[0]) == k then [a[0]] else [];
      assert (a + b)[0] == a[0];
      assert (a + b)[1..] == a[1..] + b;
      assert WithKey(a + b, key, k) == h + WithKey(a[1..] + b, key, k);
      assert WithKey(a, key, k) == h + WithKey(a[1..], key, k);
      WithKeyAppend(a[1..], b, key, k);
    }
  }

  lemma WithKeySingle<T>(y: T, key: T -> nat, k: nat)
    ensures WithKey([y], key, k) == if key(y) == k then [y] else []
  {
    assert [y][1..] == [];
  }

  lemma {:induction false} InsertStable<T>(x: T, t: seq<T>, key: T -> nat, k: nat)
    ensures WithKey(Insert(x, t, key), key, k) == WithKey([x] + t, key, k)
    decreases |t|
  {
    if t != [] && key(x) > key(t[0]) {
      var t' := t[1..];
      var r' := Insert(x, t', key);
      assert Insert(x, t, key) == [t[0]] + r';
      assert t == [t[0]] + t';
      var a := WithKey([t[0]], key, k);
      var b := WithKey([x], key, k);
      var c := WithKey(t', key, k);
      WithKeySingle(x, key, k);
      WithKeySingle(t[0], key, k);
      assert a == [] || b == [];
      InsertStable(x, t', key, k);
      WithKeyAppend([x], t', key, k);
      assert WithKey(r', key, k) == b + c;
      WithKeyAppend([t[0]], r', key, k);
      assert WithKey(Insert(x, t, key), key, k) == a + (b + c);
      WithKeyAppend([t[0]], t', key, k);
      assert WithKey(t, key, k) == a + c;
      WithKeyAppend([x], t, key, k);
      assert WithKey([x] + t, key, k) == b + (a + c);
      SwapAroundEmpty(a, b, c);
    }
  }

  /** Two pieces of which one is empty may be swapped. */
  lemma SwapAroundEmpty<T>(a: seq<T>, b: seq<T>, c: seq<T>)
    requires a == [] || b == []
    ensures a + (b + c) == b + (a + c)
  {
    if a == [] {
      assert a + (b + c) == b + c;
      assert a + c == c;
    } else {
      assert b + (a + c) == a + c;
      assert b + c == c;
    }
  }

  /**
   * The sort is stable: for every key, the elements with that key keep the
   * relative order they had in the input.
   */
  lemma {:induction false} SortStable<T>(s: seq<T>, key: T -> nat, k: nat)
    ensures WithKey(SortBy(s, key), key, k) == WithKey(s, key, k)
    decreases |s|
  {
    if s != [] {
      SortStable(s[1..], key, k);
      InsertStable(s[0], SortBy(s[1..], key), key, k);
      WithKeyAppend([s[0]], SortBy(s[1..], key), key, k);
      WithKeyAppend([s[0]], s[1..], key, k);
      assert s == [s[0]] + s[1..];
    }
  }

  /** Input already in key order comes back unchanged. */
  lemma {:induction false} SortedUnchanged<T>(s: seq<T>, key: T -> nat)
    requires SortedBy(s, key)
    ensures SortBy(s, key) == s
    decreases |s|
  {
    if s != [] {
      SortedUnchanged(s[1..], key);
      assert s == [s[0]] + s[1..];
    }
  }

  /**
   * The gallery order is a permutation of the images, non-decreasing in
   * `parseN`, keeps equal keys in input order, and puts every path without a
   * match (key `MAX_SAFE_INTEGER`) after every path with a smaller key.
   */
  lemma OrderedSpec(images: seq<string>)
    ensures multiset(Ordered(images)) == multiset(images)
    ensures SortedBy(Ordered(images), ParseN)
    ensures forall k: nat :: WithKey(Ordered(images), ParseN, k) == WithKey(images, ParseN, k)
    ensures forall i, j ::
      (0 <= i < |Ordered(images)| && 0 <= j < |Ordered(images)| &&
       ParseN(Ordered(images)[i]) < MaxSafeInteger && ParseN(Ordered(images)[j]) == MaxSafeInteger) ==> i < j
  {
    var r := Ordered(images);
    forall k: nat ensures WithKey(r, ParseN, k) == WithKey(images, ParseN, k) {
      SortStable(images, ParseN, k);
    }
    assert SortedBy(r, ParseN);
  }
}
