/** Namespaced texture keys and the string work the builder does on them:
    appending the `.png` extension, `String.lastIndexOf`, `Integer.toString`
    and the derived key of a padded texture. */
module Keys {

  /** A `NamespacedKey`: `namespace:path`. `getKey()` is the path. */
  datatype Key = Key(namespace: string, path: string)

  const PNG: string := ".png"

  /** `s.endsWith(suffix)`. */
  predicate EndsWith(s: string, suffix: string)
  {
    |suffix| <= |s| && s[|s| - |suffix|..] == suffix
  }

  /** Bitmap font providers need a `.png` texture path: the extension is
      appended unless the path already ends with it. */
  function NormalizeKey(k: Key): (r: Key)
    ensures EndsWith(r.path, PNG)
    ensures r.namespace == k.namespace && k.path <= r.path
    ensures EndsWith(k.path, PNG) <==> r == k
    ensures !EndsWith(k.path, PNG) ==> r.path == k.path + PNG
  {
    if EndsWith(k.path, PNG) then k else Key(k.namespace, k.path + PNG)
  }

  /** Normalising twice is normalising once. */
  lemma NormalizeIdempotent(k: Key)
    ensures NormalizeKey(NormalizeKey(k)) == NormalizeKey(k)
  {
  }

  /** `s.lastIndexOf(c)`: the highest index holding `c`, or -1 when there is none. */
  function LastIndexOf(s: string, c: char): (r: int)
    ensures -1 <= r < |s|
    ensures r >= 0 ==> s[r] == c
    ensures forall j :: r < j < |s| ==> s[j] != c
  {
    if |s| == 0 then -1
    else if s[|s| - 1] == c then |s| - 1
    else LastIndexOf(s[..|s| - 1], c)
  }

  /** In a path ending with `.png` the last `.` is the one that starts the extension. */
  lemma LastDotOfPng(path: string)
    requires EndsWith(path, PNG)
    ensures LastIndexOf(path, '.') == |path| - |PNG|
  {
    assert path[|path| - 4..] == ".png";
    assert path[|path| - 4] == '.';
    assert forall j :: |path| - 4 < j < |path| ==> path[j] != '.';
  }

  function DigitChar(d: int): char
    requires 0 <= d < 10
  {
    "0123456789"[d]
  }

  function DigitValue(c: char): int
  {
    if '0' <= c <= '9' then c as int - '0' as int else 0
  }

  predicate IsDigits(s: string)
  {
    forall i :: 0 <= i < |s| ==> '0' <= s[i] <= '9'
  }

  /** `Integer.toString(n)` for a non-negative `n`: its decimal digits, most
      significant first. */
  function Decimal(n: nat): (s: string)
    ensures |s| >= 1 && IsDigits(s)
  {
    if n < 10 then [DigitChar(n)] else Decimal(n / 10) + [DigitChar(n % 10)]
  }

  /** The number a string of decimal digits denotes. */
  function DecimalValue(s: string): nat
  {
    if s == [] then 0 else DecimalValue(s[..|s| - 1]) * 10 + DigitValue(s[|s| - 1]) as nat
  }

  /** Reading back the digits of `n` gives `n`. */
  lemma {:induction false} DecimalRoundTrip(n: nat)
    ensures DecimalValue(Decimal(n)) == n
  {
    var s := Decimal(n);
    if n < 10 {
      assert s[..0] == [];
    } else {
      DecimalRoundTrip(n / 10);
      assert s[..|s| - 1] == Decimal(n / 10);
    }
  }

  /** Distinct numbers have distinct decimal forms. */
  lemma DecimalInjective(m: nat, n: nat)
    requires Decimal(m) == Decimal(n)
    ensures m == n
  {
    DecimalRoundTrip(m);
    DecimalRoundTrip(n);
  }

  /** The key of the padded texture, in namespace `generated`:
      `<namespace>/<path up to its last '.'>_<size><path from its last '.'>`. */
  function DerivedKey(generated: string, k: Key, size: nat): (r: Key)
    requires EndsWith(k.path, PNG)
    ensures r.namespace == generated && EndsWith(r.path, PNG)
  {
    LastDotOfPng(k.path);
    var ext := LastIndexOf(k.path, '.');
    Key(generated, k.namespace + "/" + k.path[..ext] + "_" + Decimal(size) + k.path[ext..])
  }

  /** The path without its `.png` extension. */
  function Stem(path: string): string
    requires EndsWith(path, PNG)
  {
    path[..|path| - |PNG|]
  }

  /** The derived path spelled out: namespace, `/`, stem, `_`, size, `.png`. */
  lemma DerivedKeyPath(generated: string, k: Key, size: nat)
    requires EndsWith(k.path, PNG)
    ensures DerivedKey(generated, k, size).path
            == k.namespace + "/" + Stem(k.path) + "_" + Decimal(size) + PNG
  {
    LastDotOfPng(k.path);
    assert k.path[|k.path| - 4..] == PNG;
  }

  /** A derived path ends with `_<size>.png`. */
  lemma DerivedKeySuffix(generated: string, k: Key, size: nat)
    requires EndsWith(k.path, PNG)
    ensures EndsWith(DerivedKey(generated, k, size).path, "_" + Decimal(size) + PNG)
  {
    DerivedKeyPath(generated, k, size);
    var head := k.namespace + "/" + Stem(k.path);
    var tail := "_" + Decimal(size) + PNG;
    var path := DerivedKey(generated, k, size).path;
    assert path == head + tail;
    assert path[|path| - |tail|..] == tail;
  }

  /** A derived key never coincides with the (normalised) key it came from. */
  lemma DerivedKeyIsNew(generated: string, k: Key, size: nat)
    requires EndsWith(k.path, PNG)
    ensures DerivedKey(generated, k, size) != k
  {
    DerivedKeyPath(generated, k, size);
  }

  /** When `a + [c] + d == b + [c] + e` and neither `d` nor `e` holds `c`,
      the split at the last `c` is the same on both sides. */
  lemma SplitAtLast(a: string, b: string, c: char, d: string, e: string)
    requires c !in d && c !in e
    requires a + [c] + d == b + [c] + e
    ensures a == b && d == e
  {
    var s, t := a + [c] + d, b + [c] + e;
    assert forall j :: |a| < j < |s| ==> s[j] == d[j - |a| - 1];
    assert forall j :: |b| < j < |t| ==> t[j] == e[j - |b| - 1];
    assert s[|a|] == c && t[|b|] == c;
    assert |a| == |b|;
    assert a == s[..|a|] == b;
    assert d == s[|a| + 1..] == e;
  }

  /** When `a + [c] + d == b + [c] + e` and neither `a` nor `b` holds `c`,
      the split at the first `c` is the same on both sides. */
  lemma SplitAtFirst(a: string, b: string, c: char, d: string, e: string)
    requires c !in a && c !in b
    requires a + [c] + d == b + [c] + e
    ensures a == b && d == e
  {
    var s, t := a + [c] + d, b + [c] + e;
    assert forall i :: 0 <= i < |a| ==> s[i] == a[i];
    assert forall i :: 0 <= i < |b| ==> t[i] == b[i];
    assert s[|a|] == c && t[|b|] == c;
    assert |a| == |b|;
    assert a == s[..|a|] == b;
    assert d == s[|a| + 1..] == e;
  }

  /** A common suffix can be cancelled. */
  lemma DropSuffix(x: string, y: string, s: string)
    requires x + s == y + s
    ensures x == y
  {
    assert |x| == |y|;
    assert x == (x + s)[..|x|];
    assert y == (y + s)[..|y|];
  }

  /** A path ending with `.png` is its stem followed by `.png`. */
  lemma StemThenPng(path: string)
    requires EndsWith(path, PNG)
    ensures path == Stem(path) + PNG
  {
    assert path[|path| - |PNG|..] == PNG;
  }

  /** The derived key determines its source key and size, so two draw calls
      share a generated texture only when they pad the same source to the same
      size. A `NamespacedKey` namespace never contains `/`. */
  lemma DerivedKeyInjective(generated: string, k1: Key, s1: nat, k2: Key, s2: nat)
    requires EndsWith(k1.path, PNG) && EndsWith(k2.path, PNG)
    requires '/' !in k1.namespace && '/' !in k2.namespace
    requires DerivedKey(generated, k1, s1) == DerivedKey(generated, k2, s2)
    ensures k1 == k2 && s1 == s2
  {
    DerivedKeyPath(generated, k1, s1);
    DerivedKeyPath(generated, k2, s2);
    var d1, d2 := Decimal(s1), Decimal(s2);
    var h1 := k1.namespace + "/" + Stem(k1.path);
    var h2 := k2.namespace + "/" + Stem(k2.path);
    DropSuffix(h1 + "_" + d1, h2 + "_" + d2, PNG);
    assert '_' !in d1 by { assert IsDigits(d1); }
    assert '_' !in d2 by { assert IsDigits(d2); }
    SplitAtLast(h1, h2, '_', d1, d2);
    DecimalInjective(s1, s2);
    SplitAtFirst(k1.namespace, k2.namespace, '/', Stem(k1.path), Stem(k2.path));
    StemThenPng(k1.path);
    StemThenPng(k2.path);
  }
}
