/** Segment file names: `seg_`, the number in at least sixteen decimal digits, `.seg`. */
module SegmentNames {
  import opened Encoding
  import opened Options

  const ZERO: byte := 48
  const WIDTH: nat := 16
  const PREFIX: Bytes := [115, 101, 103, 95]
  const SUFFIX: Bytes := [46, 115, 101, 103]
  const SEPARATOR: byte := 47

  function Digits(n: nat): (s: Bytes)
    ensures s != [] && forall i :: 0 <= i < |s| ==> ZERO <= s[i] < ZERO + 10
  {
    if n < 10 then [ZERO + n] else Digits(n / 10) + [ZERO + n % 10]
  }

  function Zeros(n: nat): (s: Bytes)
    ensures |s| == n && forall i :: 0 <= i < n ==> s[i] == ZERO
  {
    seq(n, i => ZERO)
  }

  /** The number in decimal, padded with zeros on the left. */
  function Padded(n: nat): (s: Bytes)
    ensures |s| >= WIDTH
  {
    if |Digits(n)| >= WIDTH then Digits(n) else Zeros(WIDTH - |Digits(n)|) + Digits(n)
  }

  /** Reads a decimal number; leading zeros count for nothing. */
  function ParseDigits(s: Bytes): Option<nat>
  {
    if s == [] then None
    else
      var d := s[|s| - 1];
      if d < ZERO || d >= ZERO + 10 then None
      else if |s| == 1 then Some(d - ZERO)
      else
        match ParseDigits(s[..|s| - 1])
        case Some(n) => Some(10 * n + (d - ZERO))
        case None => None
  }

  function SegmentPath(dir: Bytes, n: nat): Bytes
  {
    dir + [SEPARATOR] + PREFIX + Padded(n) + SUFFIX
  }

  /** The number in a segment path of the directory, if it is one. */
  function SegmentNumber(dir: Bytes, path: Bytes): Option<nat>
  {
    var before, after := dir + [SEPARATOR] + PREFIX, |path| - |SUFFIX|;
    if |before| <= after && path[..|before|] == before && path[after..] == SUFFIX then ParseDigits(path[|before|..after])
    else None
  }

  lemma {:induction false} ParseOfDigits(n: nat)
    ensures ParseDigits(Digits(n)) == Some(n)
  {
    if n >= 10 {
      ParseOfDigits(n / 10);
      assert Digits(n)[..|Digits(n)| - 1] == Digits(n / 10);
    }
  }

  lemma {:induction false} ParseOfZeros(z: nat, s: Bytes)
    requires ParseDigits(s).Some?
    ensures ParseDigits(Zeros(z) + s) == ParseDigits(s)
    decreases |s|
  {
    var p := Zeros(z) + s;
    assert p[|p| - 1] == s[|s| - 1];
    if |s| > 1 {
      ParseOfZeros(z, s[..|s| - 1]);
      assert p[..|p| - 1] == Zeros(z) + s[..|s| - 1];
    } else if z > 0 {
      assert p[..|p| - 1] == Zeros(z);
      OnlyZeros(z);
    }
  }

  lemma {:induction false} OnlyZeros(z: nat)
    requires z > 0
    ensures ParseDigits(Zeros(z)) == Some(0)
  {
    if z > 1 {
      OnlyZeros(z - 1);
      assert Zeros(z)[..z - 1] == Zeros(z - 1);
    }
  }

  lemma {:induction false} DigitsOf(n: nat)
    ensures var d := Digits(n);
            && d[|d| - 1] == 48 + n % 10 && (n < 10 ==> |d| == 1) && (n >= 10 ==> d[..|d| - 1] == Digits(n / 10))
            && (n > 0 ==> d[0] != 48)
  {
    if n >= 10 {
      DigitsOf(n / 10);
      assert Digits(n)[0] == Digits(n / 10)[0];
    }
  }

  lemma PathParts(dir: Bytes, number: Bytes, path: Bytes)
    requires path == dir + [SEPARATOR] + PREFIX + number + SUFFIX
    ensures |path| == |dir| + 9 + |number| && path[..|dir|] == dir && path[|dir|..|dir| + 5] == [47, 115, 101, 103, 95]
    ensures path[|dir| + 5..|path| - 4] == number && path[|path| - 4..] == [46, 115, 101, 103]
  {
    var before := dir + [SEPARATOR] + PREFIX;
    assert path[..|dir| + 5] == before;
    assert path[|dir|..|dir| + 5] == before[|dir|..];
    assert before[|dir|..] == [SEPARATOR] + PREFIX;
  }

  /** The path, byte by byte: the directory, `/seg_`, at least sixteen decimal digits and no leading zero beyond
      sixteen, `.seg`. */
  lemma PathForm(dir: Bytes, n: nat)
    ensures var path := SegmentPath(dir, n);
            var number := path[|dir| + 5..|path| - 4];
            && |path| >= |dir| + 25 && path[..|dir|] == dir && path[|dir|..|dir| + 5] == [47, 115, 101, 103, 95]
            && path[|path| - 4..] == [46, 115, 101, 103]
            && (forall i :: 0 <= i < |number| ==> 48 <= number[i] <= 57) && number[|number| - 1] == 48 + n % 10
            && (|number| > 16 ==> number[0] != 48) && ParseDigits(number) == Some(n)
  {
    PathParts(dir, Padded(n), SegmentPath(dir, n));
    hide SegmentPath;
    DigitsOf(n);
    ParseOfDigits(n);
    ParseOfZeros(if |Digits(n)| >= WIDTH then 0 else WIDTH - |Digits(n)|, Digits(n));
  }

  /** The number of a segment is read back from its path, so no two segments share a path. */
  lemma NumberOfPath(dir: Bytes, n: nat)
    ensures SegmentNumber(dir, SegmentPath(dir, n)) == Some(n)
  {
    var before := dir + [SEPARATOR] + PREFIX;
    var path := before + Padded(n) + SUFFIX;
    assert SegmentPath(dir, n) == path;
    assert path[..|before|] == before && path[|path| - |SUFFIX|..] == SUFFIX;
    assert path[|before|..|path| - |SUFFIX|] == Padded(n);
    ParseOfDigits(n);
    ParseOfZeros(if |Digits(n)| >= WIDTH then 0 else WIDTH - |Digits(n)|, Digits(n));
  }

  lemma PathsDiffer(dir: Bytes, m: nat, n: nat)
    requires m != n
    ensures SegmentPath(dir, m) != SegmentPath(dir, n)
  {
    NumberOfPath(dir, m);
    NumberOfPath(dir, n);
  }
}
