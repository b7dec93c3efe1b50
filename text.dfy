/** The string functions the services and queries rely on: Java's trim,
    the name constraints, substring tests, case folding, the order of names
    and the decimal rendering of counts. */
module Text {

  /** String.trim() strips every leading and trailing char whose code is at most U+0020. */
  predicate IsTrimmable(c: char) {
    c <= ' '
  }

  function TrimStart(s: string): (r: string)
    ensures |r| <= |s| && r == s[|s| - |r|..]
    ensures r != [] ==> !IsTrimmable(r[0])
    ensures forall i :: 0 <= i < |s| - |r| ==> IsTrimmable(s[i])
  {
    if s != [] && IsTrimmable(s[0]) then TrimStart(s[1..]) else s
  }

  function TrimEnd(s: string): (r: string)
    ensures |r| <= |s| && r == s[..|r|]
    ensures r != [] ==> !IsTrimmable(r[|r| - 1])
    ensures forall i :: |r| <= i < |s| ==> IsTrimmable(s[i])
  {
    if s != [] && IsTrimmable(s[|s| - 1]) then TrimEnd(s[..|s| - 1]) else s
  }

  /** Java's String.trim(). */
  function Trim(s: string): (r: string)
    ensures |r| <= |s|
    ensures r != [] ==> !IsTrimmable(r[0]) && !IsTrimmable(r[|r| - 1])
    ensures exists k :: OccursAt(s, r, k) && (forall i :: 0 <= i < k ==> IsTrimmable(s[i]))
                        && (forall i :: k + |r| <= i < |s| ==> IsTrimmable(s[i]))
  {
    var t := TrimStart(s);
    var r := TrimEnd(t);
    var k := |s| - |t|;
    assert r == t[..|r|] == s[k..k + |r|];
    assert forall i :: k + |r| <= i < |s| ==> s[i] == t[i - k];
    assert OccursAt(s, r, k);
    r
  }

  lemma {:induction false} TrimStartOfTrimmable(s: string)
    requires forall i :: 0 <= i < |s| ==> IsTrimmable(s[i])
    ensures TrimStart(s) == []
  {
    if s != [] {
      TrimStartOfTrimmable(s[1..]);
    }
  }

  /** trim() yields the empty string exactly when every char of s is trimmable. */
  lemma TrimEmptyIff(s: string)
    ensures Trim(s) == [] <==> forall i :: 0 <= i < |s| ==> IsTrimmable(s[i])
  {
    var t := TrimStart(s);
    if Trim(s) == [] {
      // t starts with a char trim keeps, unless it is empty; TrimEnd would drop all of it
      assert t == [];
    }
    if forall i :: 0 <= i < |s| ==> IsTrimmable(s[i]) {
      TrimStartOfTrimmable(s);
    }
  }

  /** q occurs in s at position i. */
  predicate OccursAt(s: string, q: string, i: int) {
    0 <= i <= |s| - |q| && s[i..i + |q|] == q
  }

  /** trim() returns a contiguous part of its argument. */
  lemma TrimIsSlice(s: string)
    ensures exists i :: OccursAt(s, Trim(s), i)
  {
    var t := TrimStart(s);
    var k := |s| - |t|;
    assert Trim(s) == t[..|Trim(s)|] == s[k..k + |Trim(s)|];
    assert OccursAt(s, Trim(s), k);
  }

  /** Bean Validation's @NotBlank: not null and not empty after trim(). */
  predicate NotBlank(s: string) {
    Trim(s) != []
  }

  /** Longest name a CURSO, DISCIPLINA or ALUNO row holds (@Size(max = 80), length = 80). */
  const MaxNameLength: nat := 80

  /** The constraint every entity's name carries: @NotBlank and @Size(max = 80). */
  predicate ValidName(s: string) {
    NotBlank(s) && |s| <= MaxNameLength
  }

  /** A valid name has a char other than a control char or space, and at most 80 chars. */
  lemma ValidNameMeaning(s: string)
    ensures ValidName(s) <==> (exists i :: 0 <= i < |s| && !IsTrimmable(s[i])) && |s| <= 80
  {
    TrimEmptyIff(s);
  }

  /** q occurs in s as a contiguous substring (SQL LIKE '%q%' without wildcards in q). */
  predicate Contains(s: string, q: string) {
    q <= s || (s != [] && Contains(s[1..], q))
  }

  lemma {:induction false} ContainsIff(s: string, q: string)
    ensures Contains(s, q) <==> exists i :: OccursAt(s, q, i)
  {
    if q <= s {
      assert OccursAt(s, q, 0);
    } else if s != [] {
      ContainsIff(s[1..], q);
      if exists i :: OccursAt(s, q, i) {
        var i :| OccursAt(s, q, i);
        assert i != 0;
        assert OccursAt(s[1..], q, i - 1);
      }
      if Contains(s[1..], q) {
        var i :| OccursAt(s[1..], q, i);
        assert s[1..][i..i + |q|] == s[i + 1..i + 1 + |q|];
        assert OccursAt(s, q, i + 1);
      }
    }
  }

  /** The empty pattern occurs in every string: an empty filter matches everything. */
  lemma ContainsEmpty(s: string)
    ensures Contains(s, [])
  {
  }

  /** Every string occurs in itself. */
  lemma ContainsSelf(s: string)
    ensures Contains(s, s)
  {
  }

  /** Case folding of one char: A-Z to a-z, everything else unchanged. */
  function LowerChar(c: char): (r: char)
    ensures 'A' <= c <= 'Z' ==> r as int == c as int + 32 && 'a' <= r <= 'z'
    ensures !('A' <= c <= 'Z') ==> r == c
  {
    if 'A' <= c <= 'Z' then (c as int + 32) as char else c
  }

  function Lower(s: string): (r: string)
    ensures |r| == |s| && forall i :: 0 <= i < |s| ==> r[i] == LowerChar(s[i])
  {
    seq(|s|, i requires 0 <= i < |s| => LowerChar(s[i]))
  }

  /** Derived "...ContainingIgnoreCase": q occurs in s once both are case-folded. */
  predicate ContainsIgnoreCase(s: string, q: string) {
    Contains(Lower(s), Lower(q))
  }

  /** Folding is idempotent, so searching with an already folded pattern changes nothing. */
  lemma LowerIdempotent(s: string)
    ensures Lower(Lower(s)) == Lower(s)
  {
  }

  /** The case-insensitive search relates case variants: "eng" finds "Engenharia". */
  lemma ContainsIgnoreCaseOfCaseVariant(s: string, q: string)
    ensures ContainsIgnoreCase(s, q) <==> ContainsIgnoreCase(Lower(s), q)
  {
    LowerIdempotent(s);
  }

  /** Strict lexicographic order on code points: the ascending ORDER BY nome. */
  predicate Less(a: string, b: string) {
    if a == [] then b != []
    else if b == [] then false
    else a[0] < b[0] || (a[0] == b[0] && Less(a[1..], b[1..]))
  }

  lemma {:induction false} LessIrreflexive(a: string)
    ensures !Less(a, a)
  {
    if a != [] {
      LessIrreflexive(a[1..]);
    }
  }

  lemma {:induction false} LessAsymmetric(a: string, b: string)
    ensures Less(a, b) ==> !Less(b, a)
  {
    if a != [] && b != [] && a[0] == b[0] {
      LessAsymmetric(a[1..], b[1..]);
    }
  }

  lemma {:induction false} LessTransitive(a: string, b: string, c: string)
    ensures Less(a, b) && Less(b, c) ==> Less(a, c)
  {
    if a != [] && b != [] && c != [] {
      LessTransitive(a[1..], b[1..], c[1..]);
    }
  }

  lemma {:induction false} LessTotal(a: string, b: string)
    ensures a == b || Less(a, b) || Less(b, a)
  {
    if a != [] && b != [] && a[0] == b[0] {
      LessTotal(a[1..], b[1..]);
      if a[1..] == b[1..] {
        assert a == [a[0]] + a[1..] && b == [b[0]] + b[1..];
      }
    }
  }

  /** Digit d as a char. */
  function DigitChar(d: nat): (c: char)
    requires d < 10
    ensures '0' <= c <= '9' && c as int - '0' as int == d
  {
    ('0' as int + d) as char
  }

  /** The decimal rendering of %d for a non-negative count. */
  function NatToString(n: nat): (r: string)
    ensures r != [] && forall i :: 0 <= i < |r| ==> '0' <= r[i] <= '9'
    decreases n
  {
    if n < 10 then [DigitChar(n)] else NatToString(n / 10) + [DigitChar(n % 10)]
  }

  /** Reads a decimal numeral back. */
  function ParseNat(s: string): nat
    requires forall i :: 0 <= i < |s| ==> '0' <= s[i] <= '9'
  {
    if s == [] then 0 else ParseNat(s[..|s| - 1]) * 10 + (s[|s| - 1] as int - '0' as int)
  }

  /** Rendering loses nothing: the count can be read back from the report. */
  lemma {:induction false} NatToStringRoundTrip(n: nat)
    ensures ParseNat(NatToString(n)) == n
    decreases n
  {
    if n >= 10 {
      var s := NatToString(n);
      assert s[..|s| - 1] == NatToString(n / 10);
      NatToStringRoundTrip(n / 10);
    }
  }
}
