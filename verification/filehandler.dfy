/**
 * What every store file shares: the posting flags, the rule that decides
 * what a posting looks like at a read revision, and the file name built from
 * a file's numeric id and its suffix.
 */
module FileHandler {
  import opened Wrappers

  const FLAG_NEVER_USED: int := 0
  const FLAG_IN_USE: int := 1
  const FLAG_DELETED: int := 2

  /**
   * The flag a posting shows at read revision `revision`, given its stored
   * flag and its created and deleted revisions. A stored flag other than the
   * three known ones is a StoreError.
   */
  function FlagForRevision(flag: int, createdRevision: int, deletedRevision: int, revision: int): (r: Result<int>)
    ensures r.Ok? <==> flag == FLAG_NEVER_USED || flag == FLAG_IN_USE || flag == FLAG_DELETED
    ensures r.Err? ==> r.error.StoreError?
  {
    if flag == FLAG_NEVER_USED then Ok(FLAG_NEVER_USED)
    else if flag == FLAG_DELETED then
      if createdRevision > revision then Ok(FLAG_NEVER_USED)
      else if deletedRevision > revision then Ok(FLAG_IN_USE)
      else Ok(FLAG_DELETED)
    else if flag == FLAG_IN_USE then
      if createdRevision > revision then Ok(FLAG_NEVER_USED) else Ok(FLAG_IN_USE)
    else Err(StoreError("unhandled flag value"))
  }

  /** A posting that was never used looks never used at every revision. */
  lemma NeverUsedAtEveryRevision(createdRevision: int, deletedRevision: int, revision: int)
    ensures FlagForRevision(FLAG_NEVER_USED, createdRevision, deletedRevision, revision) == Ok(FLAG_NEVER_USED)
  {
  }

  /**
   * A posting stored as in use or deleted is visible exactly on the interval
   * of revisions from its creation up to (not including) its deletion; an
   * in-use posting has no end to that interval.
   */
  lemma VisibleInterval(flag: int, createdRevision: int, deletedRevision: int, revision: int)
    requires flag == FLAG_IN_USE || flag == FLAG_DELETED
    ensures FlagForRevision(flag, createdRevision, deletedRevision, revision) == Ok(FLAG_IN_USE)
        <==> createdRevision <= revision && (flag == FLAG_IN_USE || revision < deletedRevision)
    ensures FlagForRevision(flag, createdRevision, deletedRevision, revision) == Ok(FLAG_NEVER_USED)
        <==> revision < createdRevision
    ensures FlagForRevision(flag, createdRevision, deletedRevision, revision) == Ok(FLAG_DELETED)
        <==> flag == FLAG_DELETED && createdRevision <= revision && deletedRevision <= revision
  {
  }

  /** Once visible, a posting stays visible at later revisions until its deleted revision. */
  lemma VisibleLater(flag: int, createdRevision: int, deletedRevision: int, r1: int, r2: int)
    requires FlagForRevision(flag, createdRevision, deletedRevision, r1) == Ok(FLAG_IN_USE)
    requires r1 <= r2 && (flag == FLAG_IN_USE || r2 < deletedRevision)
    ensures FlagForRevision(flag, createdRevision, deletedRevision, r2) == Ok(FLAG_IN_USE)
  {
  }

  // ---------------------------------------------------------------------
  // File names

  function DigitChar(d: int): char
    requires 0 <= d < 10
  {
    "0123456789"[d]
  }

  function DigitValue(c: char): int
  {
    if '0' <= c <= '9' then c as int - '0' as int else 0
  }

  predicate AllDigits(s: string)
  {
    forall i :: 0 <= i < |s| ==> '0' <= s[i] <= '9'
  }

  /** The decimal digits of a non-negative number, most significant first, without leading zeros. */
  function Digits(n: nat): (s: string)
    ensures |s| >= 1 && AllDigits(s)
  {
    if n < 10 then [DigitChar(n)] else Digits(n / 10) + [DigitChar(n % 10)]
  }

  /** `String.valueOf(int)`. */
  function ValueOf(id: int): string
  {
    if id < 0 then "-" + Digits(-id) else Digits(id)
  }

  /** The number a string of decimal digits denotes. */
  function ParseDecimal(s: string): nat
  {
    if s == [] then 0 else 10 * ParseDecimal(s[..|s| - 1]) + DigitValue(s[|s| - 1])
  }

  function ZeroChars(n: nat): (z: string)
    ensures |z| == n && forall i :: 0 <= i < n ==> z[i] == '0'
  {
    if n == 0 then [] else ZeroChars(n - 1) + ['0']
  }

  /** `s` with '0' characters put in front until it is at least `width` long. */
  function PadLeft(s: string, width: nat): (p: string)
  {
    if |s| >= width then s else ZeroChars(width - |s|) + s
  }

  /** The name the store gives the file with id `id` and suffix `suffix` ("ht", "v", "md", ...). */
  function NameOf(id: int, suffix: string): string
  {
    PadLeft(ValueOf(id), 8) + "." + suffix
  }

  /** The constructor's name building: the id's decimal form, padded, then '.' and the suffix. */
  method FileName(id: int, suffix: string) returns (name: string)
    ensures name == NameOf(id, suffix)
  {
    var sb := PadWithZeros(ValueOf(id));
    name := sb + "." + suffix;
  }

  /** The padding loop: prepend '0' while the name is shorter than 8. */
  method PadWithZeros(v: string) returns (sb: string)
    ensures sb == PadLeft(v, 8)
  {
    sb := v;
    ghost var added := 0;
    while |sb| < 8
      invariant sb == ZeroChars(added) + v
      invariant |v| < 8 ==> added <= 8 - |v|
      invariant |v| >= 8 ==> added == 0
      decreases 8 - |sb|
    {
      sb := "0" + sb;
      ZeroCharsFront(added);
      added := added + 1;
    }
  }

  /** One more '0' in front is one more '0' at the end. */
  lemma ZeroCharsFront(n: nat)
    ensures ZeroChars(n + 1) == ['0'] + ZeroChars(n)
  {
    var a, b := ZeroChars(n + 1), ['0'] + ZeroChars(n);
    assert |a| == |b|;
    forall i | 0 <= i < |a|
      ensures a[i] == b[i]
    {
    }
  }

  lemma DigitRoundTrip(d: int)
    requires 0 <= d < 10
    ensures DigitValue(DigitChar(d)) == d
  {
    if d < 5 {
      assert d == 0 || d == 1 || d == 2 || d == 3 || d == 4;
    } else {
      assert d == 5 || d == 6 || d == 7 || d == 8 || d == 9;
    }
  }

  lemma {:induction false} ParseDigits(n: nat)
    ensures ParseDecimal(Digits(n)) == n
  {
    if n < 10 {
      DigitRoundTrip(n);
      assert [DigitChar(n)][..0] == [];
    } else {
      var s := Digits(n);
      var q, r := n / 10, n % 10;
      assert s == Digits(q) + [DigitChar(r)];
      assert s[..|s| - 1] == Digits(q);
      assert s[|s| - 1] == DigitChar(r);
      ParseDigits(q);
      DigitRoundTrip(r);
      assert ParseDecimal(s) == 10 * q + r;
    }
  }

  lemma {:induction false} ParseLeadingZeros(k: nat, s: string)
    ensures ParseDecimal(ZeroChars(k) + s) == ParseDecimal(s)
    decreases |s|, k
  {
    if s == [] {
      if k > 0 {
        assert ZeroChars(k) + s == ZeroChars(k - 1) + ['0'];
        assert (ZeroChars(k - 1) + ['0'])[..k - 1] == ZeroChars(k - 1);
        ParseLeadingZeros(k - 1, []);
        assert ZeroChars(k - 1) + [] == ZeroChars(k - 1);
      }
    } else {
      var t := ZeroChars(k) + s;
      assert t[..|t| - 1] == ZeroChars(k) + s[..|s| - 1];
      ParseLeadingZeros(k, s[..|s| - 1]);
    }
  }

  /** The leading run of decimal digits of a string. */
  function DigitPrefix(s: string): (p: string)
    ensures AllDigits(p) && |p| <= |s| && p == s[..|p|]
  {
    if s == [] || !('0' <= s[0] <= '9') then [] else [s[0]] + DigitPrefix(s[1..])
  }

  /** The id a file name stands for: the number its leading digits denote. */
  function IdOfName(name: string): nat
  {
    ParseDecimal(DigitPrefix(name))
  }

  lemma {:induction false} DigitPrefixStops(stem: string, rest: string)
    requires AllDigits(stem) && rest != [] && rest[0] == '.'
    ensures DigitPrefix(stem + rest) == stem
    decreases |stem|
  {
    var s := stem + rest;
    if stem == [] {
      assert s == rest;
    } else {
      assert s[0] == stem[0];
      assert s[1..] == stem[1..] + rest;
      assert AllDigits(stem[1..]) by {
        forall i | 0 <= i < |stem| - 1
          ensures '0' <= stem[1..][i] <= '9'
        {
          assert stem[1..][i] == stem[i + 1];
        }
      }
      DigitPrefixStops(stem[1..], rest);
      assert DigitPrefix(s) == [stem[0]] + stem[1..];
      assert [stem[0]] + stem[1..] == stem;
    }
  }

  /**
   * For a non-negative id the name is at least eight decimal digits that
   * denote the id, a '.', and the suffix: the id can be read back from the name.
   */
  lemma NameOfDenotesId(id: nat, suffix: string)
    ensures var stem := PadLeft(Digits(id), 8);
      NameOf(id, suffix) == stem + "." + suffix &&
      |stem| == (if |Digits(id)| < 8 then 8 else |Digits(id)|) && AllDigits(stem)
    ensures IdOfName(NameOf(id, suffix)) == id
  {
    var d := Digits(id);
    var stem := PadLeft(d, 8);
    ParseDigits(id);
    if |d| < 8 {
      ParseLeadingZeros(8 - |d|, d);
    }
    assert stem + "." + suffix == stem + ("." + suffix);
    DigitPrefixStops(stem, "." + suffix);
  }

  /** Files of one kind with different ids never share a name. */
  lemma NamesDistinct(id1: nat, id2: nat, suffix: string)
    requires id1 != id2
    ensures NameOf(id1, suffix) != NameOf(id2, suffix)
  {
    NameOfDenotesId(id1, suffix);
    NameOfDenotesId(id2, suffix);
  }
}
