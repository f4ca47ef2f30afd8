// lt_nocase_str of nocase.h: the case-insensitive "less than" on strings
// that the table's column-name index is ordered by. The locale is the
// classic "C" locale, whose toupper changes only 'a'..'z'.
module NoCase {

  /** ctype<char>::toupper in the classic locale. The result is never a
      lowercase letter, and it differs from the argument exactly when the
      argument is one. */
  function ToUpper(c: char): (r: char)
    ensures !('a' <= r <= 'z')
    ensures r != c <==> 'a' <= c <= 'z'
    ensures 'a' <= c <= 'z' ==> 'A' <= r <= 'Z' && r as int - 'A' as int == c as int - 'a' as int
  {
    if 'a' <= c <= 'z' then (c as int - 32) as char else c
  }

  /** lt_char: compare two bytes by their upper-case forms. A letter is
      never less than itself in the other case, and an upper-case letter
      compares with a lower-case one as with its capital. */
  predicate LtChar(x: char, y: char)
    ensures ToUpper(x) == ToUpper(y) ==> !LtChar(x, y)
    ensures 'A' <= x <= 'Z' && 'a' <= y <= 'z' ==> (LtChar(x, y) <==> x as int + 32 < y as int)
  {
    ToUpper(x) < ToUpper(y)
  }

  /** The upper-case form of a whole string. */
  function Upper(s: string): (r: string)
    ensures |r| == |s|
    ensures forall i :: 0 <= i < |s| ==> r[i] == ToUpper(s[i])
  {
    seq(|s|, i requires 0 <= i < |s| => ToUpper(s[i]))
  }

  /** operator(): std::lexicographical_compare of the two strings under
      lt_char. The first position where the upper-case forms differ decides;
      otherwise the shorter string is less. */
  predicate Less(x: string, y: string)
    ensures Less(x, y) ==> y != [] && (x == [] || ToUpper(x[0]) <= ToUpper(y[0]))
    decreases |x|
  {
    if y == [] then false
    else if x == [] then true
    else if LtChar(x[0], y[0]) then true
    else if LtChar(y[0], x[0]) then false
    else Less(x[1..], y[1..])
  }

  /** Two names the multimap treats as the same key. */
  predicate SameName(x: string, y: string) {
    !Less(x, y) && !Less(y, x)
  }

  lemma ToUpperIdempotent(c: char)
    ensures ToUpper(ToUpper(c)) == ToUpper(c)
  {
  }

  /** The comparison depends only on the upper-case forms. */
  lemma {:induction false} LessUpper(x: string, y: string)
    ensures Less(x, y) == Less(Upper(x), Upper(y))
    decreases |x|
  {
    if x != [] && y != [] {
      ToUpperIdempotent(x[0]);
      ToUpperIdempotent(y[0]);
      assert Upper(x)[1..] == Upper(x[1..]);
      assert Upper(y)[1..] == Upper(y[1..]);
      LessUpper(x[1..], y[1..]);
    }
  }

  /** Position k decides the comparison in favour of x: the upper-case
      forms agree before k, y goes on past k, and at k either x has ended or
      its upper-case byte is the smaller. */
  predicate DecidedAt(x: string, y: string, k: nat) {
    && k <= |x| && k < |y|
    && (forall i :: 0 <= i < k ==> ToUpper(x[i]) == ToUpper(y[i]))
    && (k == |x| || ToUpper(x[k]) < ToUpper(y[k]))
  }

  lemma {:induction false} LessFromDecided(x: string, y: string, k: nat)
    requires DecidedAt(x, y, k)
    ensures Less(x, y)
    decreases k
  {
    if k > 0 {
      assert ToUpper(x[0]) == ToUpper(y[0]);
      assert DecidedAt(x[1..], y[1..], k - 1) by {
        forall i | 0 <= i < k - 1 ensures ToUpper(x[1..][i]) == ToUpper(y[1..][i]) {
          assert ToUpper(x[i + 1]) == ToUpper(y[i + 1]);
        }
      }
      LessFromDecided(x[1..], y[1..], k - 1);
    }
  }

  lemma {:induction false} DecidedFromLess(x: string, y: string) returns (k: nat)
    requires Less(x, y)
    ensures DecidedAt(x, y, k)
    decreases |x|
  {
    if x == [] || LtChar(x[0], y[0]) {
      k := 0;
    } else {
      var k' := DecidedFromLess(x[1..], y[1..]);
      k := k' + 1;
      forall i | 0 <= i < k ensures ToUpper(x[i]) == ToUpper(y[i]) {
        if i > 0 {
          assert ToUpper(x[1..][i - 1]) == ToUpper(y[1..][i - 1]);
        }
      }
    }
  }

  /** Less is the strict lexicographic order on the upper-case forms: x is
      less than y exactly when some position decides it in favour of x. */
  lemma LessWitness(x: string, y: string)
    ensures Less(x, y) <==> exists k: nat :: DecidedAt(x, y, k)
  {
    if Less(x, y) {
      var k := DecidedFromLess(x, y);
    }
    if k: nat :| DecidedAt(x, y, k) {
      LessFromDecided(x, y, k);
    }
  }

  /** Irreflexive. */
  lemma {:induction false} LessIrreflexive(x: string)
    ensures !Less(x, x)
    decreases |x|
  {
    if x != [] {
      LessIrreflexive(x[1..]);
    }
  }

  /** Transitive. */
  lemma {:induction false} LessTransitive(x: string, y: string, z: string)
    requires Less(x, y) && Less(y, z)
    ensures Less(x, z)
    decreases |x|
  {
    if x != [] && !LtChar(x[0], y[0]) && !LtChar(y[0], z[0]) {
      LessTransitive(x[1..], y[1..], z[1..]);
    }
  }

  /** Two names are the same key exactly when their upper-case forms are
      equal, so SameName is an equivalence and Less a strict weak order. */
  lemma {:induction false} SameNameUpper(x: string, y: string)
    ensures SameName(x, y) <==> Upper(x) == Upper(y)
    decreases |x|
  {
    if x != [] && y != [] {
      SameNameUpper(x[1..], y[1..]);
      if Upper(x) == Upper(y) {
        assert Upper(x)[0] == Upper(y)[0];
        assert Upper(x[1..]) == Upper(x)[1..];
        assert Upper(y[1..]) == Upper(y)[1..];
      } else if ToUpper(x[0]) == ToUpper(y[0]) {
        assert Upper(x) == [ToUpper(x[0])] + Upper(x[1..]);
        assert Upper(y) == [ToUpper(y[0])] + Upper(y[1..]);
      } else {
        assert Upper(x)[0] != Upper(y)[0];
      }
    } else if x != [] || y != [] {
      assert |Upper(x)| != |Upper(y)|;
    }
  }

  /** A string is less than any longer string that starts with it, up to
      case. */
  lemma {:induction false} PrefixLess(x: string, y: string)
    requires |x| < |y| && Upper(x) == Upper(y)[..|x|]
    ensures Less(x, y)
    decreases |x|
  {
    if x != [] {
      assert Upper(x)[0] == Upper(y)[0];
      assert Upper(x[1..]) == Upper(x)[1..];
      assert Upper(y[1..])[..|x| - 1] == Upper(y)[..|x|][1..];
      PrefixLess(x[1..], y[1..]);
    }
  }
}
