// String helpers of app/page.tsx: `clsx`, the decimal rendering and
// zero padding of the lightbox position indicator, and the decimal value
// of a digit run (used by the gallery's `parseN`).
module Text {
  import opened Common

  predicate IsDigit(c: char) {
    '0' <= c <= '9'
  }

  predicate AllDigits(s: string) {
    forall i :: 0 <= i < |s| ==> IsDigit(s[i])
  }

  function DigitValue(c: char): nat
    requires IsDigit(c)
  {
    (c as int) - ('0' as int)
  }

  function DigitChar(d: nat): (c: char)
    requires d < 10
    ensures IsDigit(c) && DigitValue(c) == d
  {
    (('0' as int) + d) as char
  }

  /** The number a run of decimal digits denotes (`Number(digits)`, without float rounding). */
  function DecimalValue(ds: string): nat
    requires AllDigits(ds)
  {
    if ds == [] then 0 else 10 * DecimalValue(ds[..|ds| - 1]) + DigitValue(ds[|ds| - 1])
  }

  /** `String(n)` for a non-negative integer: its shortest decimal spelling. */
  function Decimal(n: nat): (s: string)
    ensures |s| >= 1 && AllDigits(s)
    ensures DecimalValue(s) == n
    ensures |s| > 1 ==> s[0] != '0'
    ensures n < 10 <==> |s| == 1
  {
    if n < 10 then [DigitChar(n)]
    else
      var s := Decimal(n / 10) + [DigitChar(n % 10)];
      assert s[..|s| - 1] == Decimal(n / 10);
      s
  }

  /** `s.padStart(width, fill)`: `fill` repeated on the left up to `width` characters. */
  function PadStart(s: string, width: nat, fill: char): (r: string)
    ensures |r| == Max(|s|, width)
    ensures r[|r| - |s|..] == s
    ensures forall i :: 0 <= i < |r| - |s| ==> r[i] == fill
  {
    if |s| >= width then s else seq(width - |s|, _ => fill) + s
  }

  /** Leading zeros do not change the value of a digit run. */
  lemma {:induction false} LeadingZeros(zs: string, ds: string)
    requires forall i :: 0 <= i < |zs| ==> zs[i] == '0'
    requires AllDigits(ds)
    ensures AllDigits(zs + ds) && DecimalValue(zs + ds) == DecimalValue(ds)
    decreases |ds| + |zs|
  {
    if ds == [] {
      assert zs + ds == zs;
      if zs != [] {
        LeadingZeros(zs[..|zs| - 1], []);
        assert zs[..|zs| - 1] + [] == zs[..|zs| - 1];
      }
    } else {
      var s := zs + ds;
      assert s[..|s| - 1] == zs + ds[..|ds| - 1];
      LeadingZeros(zs, ds[..|ds| - 1]);
    }
  }

  /**
   * `String(n).padStart(2, "0")` reads back as `n`, and is exactly two
   * characters for every `n` below 100.
   */
  lemma PaddedReadsBack(n: nat)
    ensures AllDigits(PadStart(Decimal(n), 2, '0'))
    ensures DecimalValue(PadStart(Decimal(n), 2, '0')) == n
    ensures n < 100 ==> |PadStart(Decimal(n), 2, '0')| == 2
  {
    var d := Decimal(n);
    var p := PadStart(d, 2, '0');
    var zs := p[..|p| - |d|];
    assert p == zs + d;
    LeadingZeros(zs, d);
    if n >= 10 && n < 100 {
      assert Decimal(n / 10) == [DigitChar(n / 10)];
    }
  }

  /** A part passed to `clsx`: a string, `false`, `null` or `undefined`. */
  datatype Part = Str(s: string) | False | Null | Undefined

  /** JavaScript truthiness of a part (`Boolean`): only a non-empty string. */
  predicate Truthy(p: Part) {
    p.Str? && p.s != ""
  }

  /**
   * `c.filter(Boolean)`: the truthy parts, in order, as strings. Every
   * truthy part is kept, and every kept string is a truthy part; the order
   * is pinned down by `KeptSingle` with `KeptAppend`.
   */
  function Kept(parts: seq<Part>): (ks: seq<string>)
    ensures |ks| <= |parts|
    ensures forall i :: 0 <= i < |ks| ==> ks[i] != ""
    ensures forall i :: 0 <= i < |parts| && Truthy(parts[i]) ==> parts[i].s in ks
    ensures forall k :: k in ks ==> Str(k) in parts
  {
    if parts == [] then []
    else
      var rest := Kept(parts[1..]);
      assert forall i :: 1 <= i < |parts| ==> parts[i] == parts[1..][i - 1];
      (if Truthy(parts[0]) then [parts[0].s] else []) + rest
  }

  /** A single part is kept exactly when it is truthy. */
  lemma KeptSingle(p: Part)
    ensures Kept([p]) == if Truthy(p) then [p.s] else []
  {
    assert [p][1..] == [];
  }

  /** `Array.prototype.join(sep)`. */
  function Join(ss: seq<string>, sep: string): string {
    if |ss| == 0 then ""
    else if |ss| == 1 then ss[0]
    else ss[0] + sep + Join(ss[1..], sep)
  }

  /** `clsx(...c)`: the truthy parts joined by single spaces. */
  function Clsx(parts: seq<Part>): string {
    Join(Kept(parts), " ")
  }

  lemma {:induction false} KeptAppend(a: seq<Part>, b: seq<Part>)
    ensures Kept(a + b) == Kept(a) + Kept(b)
    decreases |a|
  {
    if a != [] {
      assert (a + b)[1..] == a[1..] + b;
      KeptAppend(a[1..], b);
    } else {
      assert a + b == b;
    }
  }

  /** `clsx` of one part: its string when truthy, otherwise "". With `ClsxAppend` this fixes `clsx` on every list. */
  lemma ClsxSingle(p: Part)
    ensures Clsx([p]) == if Truthy(p) then p.s else ""
  {
    KeptSingle(p);
  }

  lemma {:induction false} JoinAppend(x: seq<string>, y: seq<string>, sep: string)
    requires x != [] && y != []
    ensures Join(x + y, sep) == Join(x, sep) + sep + Join(y, sep)
    decreases |x|
  {
    if |x| > 1 {
      assert (x + y)[1..] == x[1..] + y;
      JoinAppend(x[1..], y, sep);
    } else {
      assert (x + y)[1..] == y;
    }
  }

  lemma {:induction false} JoinNonEmpty(ss: seq<string>, sep: string)
    requires forall i :: 0 <= i < |ss| ==> ss[i] != ""
    ensures (Join(ss, sep) == "") <==> (ss == [])
    decreases |ss|
  {
    if |ss| > 1 {
      JoinNonEmpty(ss[1..], sep);
    }
  }

  /** `clsx` yields the empty string exactly when no part is truthy. */
  lemma {:induction false} ClsxEmpty(parts: seq<Part>)
    ensures (Clsx(parts) == "") <==> (forall i :: 0 <= i < |parts| ==> !Truthy(parts[i]))
    decreases |parts|
  {
    JoinNonEmpty(Kept(parts), " ");
    if parts != [] {
      ClsxEmpty(parts[1..]);
      KeptAppend(parts[..1], parts[1..]);
      assert parts == parts[..1] + parts[1..];
      assert forall i :: 1 <= i < |parts| ==> parts[i] == parts[1..][i - 1];
    }
  }

  /**
   * `clsx` over two groups of arguments is the two results joined by a
   * space, where an empty side contributes nothing (no doubled or stray space).
   */
  lemma ClsxAppend(a: seq<Part>, b: seq<Part>)
    ensures Clsx(a + b) ==
      if Clsx(a) == "" then Clsx(b)
      else if Clsx(b) == "" then Clsx(a)
      else Clsx(a) + " " + Clsx(b)
  {
    KeptAppend(a, b);
    JoinNonEmpty(Kept(a), " ");
    JoinNonEmpty(Kept(b), " ");
    if Kept(a) == [] {
      assert Kept(a) + Kept(b) == Kept(b);
    } else if Kept(b) == [] {
      assert Kept(a) + Kept(b) == Kept(a);
    } else {
      JoinAppend(Kept(a), Kept(b), " ");
    }
  }
}
