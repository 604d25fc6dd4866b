/**
 * The names `bmp_writer` gives its output files: the `printf` pattern
 * `/tmp/imgs/w%0.6d.bmp` applied to the writer's counter, that is the prefix
 * `/tmp/imgs/w`, the counter in decimal with at least six digits (padded on
 * the left with zeros), and the suffix `.bmp`.
 */
module Names {
  import opened Optional

  const Prefix: string := "/tmp/imgs/w"
  const Suffix: string := ".bmp"
  /** The precision of the `%0.6d` conversion: the least number of digits printed. */
  const MinDigits: nat := 6
  /** Size of the buffer the writer formats the name into, `malloc(64)`. */
  const NameBufferSize: nat := 64

  predicate IsDigit(c: char)
  {
    '0' <= c <= '9'
  }

  predicate AllDigits(d: string)
  {
    forall i :: 0 <= i < |d| ==> IsDigit(d[i])
  }

  function DigitChar(v: nat): (c: char)
    requires v < 10
    ensures IsDigit(c)
  {
    (48 + v) as char
  }

  function DigitVal(c: char): (v: nat)
    requires IsDigit(c)
    ensures v < 10
  {
    c as int - 48
  }

  /** The number a string of decimal digits denotes, most significant digit first. */
  function DecimalValue(d: string): nat
    requires AllDigits(d)
    decreases |d|
  {
    if |d| == 0 then 0 else 10 * DecimalValue(d[..|d| - 1]) + DigitVal(d[|d| - 1])
  }

  /** `k` zero characters. */
  function Zeros(k: nat): (z: string)
    ensures |z| == k && AllDigits(z)
    ensures forall i :: 0 <= i < k ==> z[i] == '0'
  {
    seq(k, _ => '0')
  }

  function Max(a: nat, b: nat): nat
  {
    if a < b then b else a
  }

  /** The shortest decimal representation of `n`: no leading zero unless `n` is 0. */
  function Digits(n: nat): (d: string)
    ensures 1 <= |d| && AllDigits(d)
    ensures DecimalValue(d) == n
    ensures n < 10 <==> |d| == 1
    ensures n >= 10 ==> d[0] != '0'
    decreases n
  {
    if n < 10 then [DigitChar(n)]
    else
      var high := Digits(n / 10);
      var d := high + [DigitChar(n % 10)];
      assert d[..|d| - 1] == high;
      d
  }

  /** `n` in decimal with at least `width` digits, padded on the left with zeros. */
  function Padded(n: nat, width: nat): (d: string)
    ensures |d| == Max(width, |Digits(n)|) && AllDigits(d)
    ensures DecimalValue(d) == n
    ensures 1 <= width < |d| ==> d[0] != '0'
  {
    var digits := Digits(n);
    var d := Zeros(Max(width, |digits|) - |digits|) + digits;
    LeadingZeros(Max(width, |digits|) - |digits|, digits);
    assert |digits| > width ==> d == digits;
    d
  }

  /** Zeros in front of a string of digits do not change its value. */
  lemma {:induction false} LeadingZeros(k: nat, d: string)
    requires AllDigits(d)
    ensures AllDigits(Zeros(k) + d)
    ensures DecimalValue(Zeros(k) + d) == DecimalValue(d)
    decreases |d|
  {
    var s := Zeros(k) + d;
    if |d| == 0 {
      assert s == Zeros(k);
      ZerosValue(k);
    } else {
      assert s[..|s| - 1] == Zeros(k) + d[..|d| - 1];
      LeadingZeros(k, d[..|d| - 1]);
    }
  }

  /** A string of zeros denotes 0. */
  lemma {:induction false} ZerosValue(k: nat)
    ensures DecimalValue(Zeros(k)) == 0
  {
    if k > 0 {
      assert Zeros(k)[..k - 1] == Zeros(k - 1);
      ZerosValue(k - 1);
    }
  }

  /**
   * Every non-empty string of digits is the padded representation of its own
   * value, at its own width.
   */
  lemma {:induction false} PaddedOfValue(d: string)
    requires 1 <= |d| && AllDigits(d)
    ensures d == Padded(DecimalValue(d), |d|)
    decreases |d|
  {
    var v := DecimalValue(d);
    var c := d[|d| - 1];
    if |d| == 1 {
      assert d == [c] && v == DigitVal(c) by {
        assert d[..0] == [];
        assert DecimalValue(d[..0]) == 0;
      }
      assert Digits(v) == [c] by {
        assert DigitChar(v) == c;
      }
      PaddedShape(v, 1);
    } else {
      var front := d[..|d| - 1];
      assert d == front + [c];
      var v' := DecimalValue(front);
      assert front == Padded(v', |front|) by {
        PaddedOfValue(front);
      }
      assert v == 10 * v' + DigitVal(c);
      if v' == 0 {
        assert front == Zeros(|front|) by {
          assert Digits(0) == "0";
          PaddedShape(0, |front|);
        }
        assert Digits(v) == [c] by {
          assert DigitChar(v) == c;
        }
        PaddedShape(v, |d|);
      } else {
        var pad := Zeros(|front| - |Digits(v')|);
        assert front == pad + Digits(v') by {
          PaddedShape(v', |front|);
        }
        assert Digits(v) == Digits(v') + [c] by {
          assert v / 10 == v' && v % 10 == DigitVal(c);
          assert DigitChar(DigitVal(c)) == c;
        }
        assert d == pad + Digits(v) by {
          assert d == (pad + Digits(v')) + [c];
        }
        PaddedShape(v, |d|);
      }
    }
  }

  /** Once the digits fit the width, padding adds exactly the missing zeros. */
  lemma PaddedShape(n: nat, width: nat)
    requires |Digits(n)| <= width
    ensures Padded(n, width) == Zeros(width - |Digits(n)|) + Digits(n)
  {
  }

  /** The name of the file the writer creates when its counter is `n`. */
  function FileName(n: nat): (name: string)
    ensures |name| == |Prefix| + Max(MinDigits, |Digits(n)|) + |Suffix|
    ensures name[..|Prefix|] == Prefix && name[|name| - |Suffix|..] == Suffix
    ensures AllDigits(name[|Prefix|..|name| - |Suffix|])
    ensures DecimalValue(name[|Prefix|..|name| - |Suffix|]) == n
  {
    var d := Padded(n, MinDigits);
    var name := Prefix + d + Suffix;
    assert name[|Prefix|..|name| - |Suffix|] == d;
    name
  }

  /**
   * Recovers the counter from a file name, accepting exactly the names
   * `FileName` produces: at least six digits, and no leading zero beyond six.
   */
  function ParseFileName(s: string): Option<nat>
  {
    if |s| < |Prefix| + MinDigits + |Suffix| then None
    else if s[..|Prefix|] != Prefix || s[|s| - |Suffix|..] != Suffix then None
    else
      var d := s[|Prefix|..|s| - |Suffix|];
      if AllDigits(d) && (|d| == MinDigits || d[0] != '0') then Some(DecimalValue(d))
      else None
  }

  /** A name parses to `n` exactly when it is the name for counter `n`. */
  lemma FileNameParse(s: string, n: nat)
    ensures ParseFileName(s) == Some(n) <==> s == FileName(n)
  {
    FileNameParses(n);
    if ParseFileName(s) == Some(n) {
      ParsedIsFileName(s, n);
    }
  }

  /** The name for counter `n` parses back to `n`. */
  lemma FileNameParses(n: nat)
    ensures ParseFileName(FileName(n)) == Some(n)
  {
    var s := FileName(n);
    var d := s[|Prefix|..|s| - |Suffix|];
    assert d == Padded(n, MinDigits);
  }

  /** A name that parses to `n` is the name for counter `n`. */
  lemma ParsedIsFileName(s: string, n: nat)
    requires ParseFileName(s) == Some(n)
    ensures s == FileName(n)
  {
    var d := s[|Prefix|..|s| - |Suffix|];
    PaddedOfValue(d);
    assert s == Prefix + d + Suffix;
    assert d == Padded(n, MinDigits);
  }

  /** Different counters give different names, so no capture overwrites another. */
  lemma FileNameInjective(m: nat, n: nat)
    ensures FileName(m) == FileName(n) <==> m == n
  {
    FileNameParse(FileName(m), m);
    FileNameParse(FileName(m), n);
  }

  /** Below one million the digits fill exactly six places: the name is 21 characters. */
  lemma FileNameLength(n: nat)
    requires n < 1_000_000
    ensures |FileName(n)| == 21
  {
    DigitCount(n, 6, 1_000_000);
  }

  /** A counter that is a non-negative C `int` gives a name that fits the 64-byte buffer. */
  lemma FileNameFitsBuffer(n: nat)
    requires n < 0x8000_0000
    ensures |FileName(n)| + 1 <= NameBufferSize
  {
    DigitCount(n, 10, 10_000_000_000);
  }

  /** A number below 10^k has at most k digits. */
  lemma {:induction false} DigitCount(n: nat, k: nat, bound: nat)
    requires 1 <= k && bound == Pow10(k) && n < bound
    ensures |Digits(n)| <= k
    decreases k
  {
    if n >= 10 {
      DigitCount(n / 10, k - 1, Pow10(k - 1));
    }
  }

  function Pow10(k: nat): (p: nat)
    ensures p >= 1
  {
    if k == 0 then 1 else 10 * Pow10(k - 1)
  }
}
