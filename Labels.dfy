/**
 * Property labels and the order the menu sorts them by.
 *
 * A label is "friendly (raw)": the friendly part is the property's name, or its
 * human name when the name is null or empty; the parenthesised part is always
 * the raw name. Java's `String.format("%s", ...)` prints a null as "null".
 * Labels are compared as `String.compareTo` does: character by character, a
 * proper prefix before the longer string.
 */
module Labels {
  import opened MetaModel

  /** How `%s` renders a possibly-null string. */
  function Show(s: Option<string>): string
  {
    match s
    case None => "null"
    case Some(x) => x
  }

  function FriendlyName(p: Property): string
  {
    if p.name == None || p.name == Some("") then Show(p.humanName) else p.name.value
  }

  function PropertyLabel(p: Property): string
  {
    FriendlyName(p) + " (" + Show(p.name) + ")"
  }

  /** The label of a property with a non-empty name repeats that name. */
  lemma LabelOfNamedProperty(p: Property)
    requires p.name.Some? && p.name.value != ""
    ensures PropertyLabel(p) == p.name.value + " (" + p.name.value + ")"
  {
  }

  /** A null or empty name falls back to the human name, and the raw name still closes the label. */
  lemma LabelOfUnnamedProperty(p: Property)
    requires p.name == None || p.name == Some("")
    ensures p.name == None ==> PropertyLabel(p) == Show(p.humanName) + " (null)"
    ensures p.name == Some("") ==> PropertyLabel(p) == Show(p.humanName) + " ()"
  {
  }

  /** Among properties with non-empty names, equal labels mean equal names. */
  lemma {:induction false} LabelDeterminesName(p: Property, q: Property)
    requires p.name.Some? && p.name.value != ""
    requires q.name.Some? && q.name.value != ""
    requires PropertyLabel(p) == PropertyLabel(q)
    ensures p.name == q.name
  {
    var m, n := p.name.value, q.name.value;
    var lp, lq := PropertyLabel(p), PropertyLabel(q);
    assert lp == m + " (" + m + ")";
    assert lq == n + " (" + n + ")";
    assert |lp| == 2 * |m| + 3 && |lq| == 2 * |n| + 3;
    assert |m| == |n|;
    assert lp[..|m|] == m;
    assert lq[..|n|] == n;
  }

  /** `a.compareTo(b) < 0` for Java strings. */
  function LexLess(a: string, b: string): bool
  {
    if |b| == 0 then false
    else if |a| == 0 then true
    else if a[0] != b[0] then a[0] < b[0]
    else LexLess(a[1..], b[1..])
  }

  /** `a.compareTo(b) <= 0`. */
  predicate LexLe(a: string, b: string)
  {
    !LexLess(b, a)
  }

  /**
   * The reference definition of the order: `a` is smaller when the two agree up
   * to a position where `a` has the smaller character, or `a` is a proper prefix of `b`.
   */
  ghost predicate LexLessSpec(a: string, b: string)
  {
    (exists k :: 0 <= k < |a| && k < |b| && a[..k] == b[..k] && a[k] < b[k])
    || (|a| < |b| && a == b[..|a|])
  }

  lemma {:induction false} LexLessMeetsSpec(a: string, b: string)
    ensures LexLess(a, b) <==> LexLessSpec(a, b)
  {
    if |b| == 0 {
    } else if |a| == 0 {
      assert a == b[..0];
    } else if a[0] != b[0] {
      if a[0] < b[0] {
        assert a[..0] == b[..0];
      }
      SpecAgreesAtHead(a, b);
    } else {
      LexLessMeetsSpec(a[1..], b[1..]);
      if LexLessSpec(a[1..], b[1..]) {
        if |a[1..]| < |b[1..]| && a[1..] == b[1..][..|a[1..]|] {
          assert a == b[..|a|] by {
            assert a == [a[0]] + a[1..];
            assert b[..|a|] == [b[0]] + b[1..][..|a| - 1];
          }
        } else {
          var k :| 0 <= k < |a[1..]| && k < |b[1..]| && a[1..][..k] == b[1..][..k] && a[1..][k] < b[1..][k];
          assert a[..k + 1] == [a[0]] + a[1..][..k];
          assert b[..k + 1] == [b[0]] + b[1..][..k];
          assert a[k + 1] < b[k + 1];
        }
      }
      if LexLessSpec(a, b) {
        if |a| < |b| && a == b[..|a|] {
          assert a[1..] == b[1..][..|a[1..]|];
        } else {
          var k :| 0 <= k < |a| && k < |b| && a[..k] == b[..k] && a[k] < b[k];
          assert k > 0;
          assert a[1..][..k - 1] == a[..k][1..] == b[..k][1..] == b[1..][..k - 1];
          assert a[1..][k - 1] < b[1..][k - 1];
        }
      }
    }
  }

  /** Strings in the reference order never have a larger first character. */
  lemma SpecAgreesAtHead(a: string, b: string)
    requires |a| > 0 && |b| > 0
    ensures LexLessSpec(a, b) ==> a[0] <= b[0]
  {
    if LexLessSpec(a, b) && |a| < |b| && a == b[..|a|] {
      assert a[0] == b[..|a|][0];
    } else if LexLessSpec(a, b) {
      var k :| 0 <= k < |a| && k < |b| && a[..k] == b[..k] && a[k] < b[k];
      if k > 0 {
        assert a[0] == a[..k][0];
        assert b[0] == b[..k][0];
      }
    }
  }

  lemma {:induction false} LexLessIrreflexive(a: string)
    ensures !LexLess(a, a)
  {
    if |a| > 0 {
      LexLessIrreflexive(a[1..]);
    }
  }

  lemma {:induction false} LexLessTransitive(a: string, b: string, c: string)
    requires LexLess(a, b) && LexLess(b, c)
    ensures LexLess(a, c)
  {
    if |a| > 0 && a[0] == b[0] && b[0] == c[0] {
      LexLessTransitive(a[1..], b[1..], c[1..]);
    }
  }

  /** Any two different strings are ordered one way or the other. */
  lemma {:induction false} LexLessTotal(a: string, b: string)
    ensures a == b || LexLess(a, b) || LexLess(b, a)
  {
    if |a| > 0 && |b| > 0 && a[0] == b[0] {
      LexLessTotal(a[1..], b[1..]);
      if a[1..] == b[1..] {
        assert a == [a[0]] + a[1..] && b == [b[0]] + b[1..];
      }
    }
  }

  lemma LexLessAsymmetric(a: string, b: string)
    requires LexLess(a, b)
    ensures !LexLess(b, a)
  {
    if LexLess(b, a) {
      LexLessTransitive(a, b, a);
      LexLessIrreflexive(a);
    }
  }

  lemma LexLeTransitive(a: string, b: string, c: string)
    requires LexLe(a, b) && LexLe(b, c)
    ensures LexLe(a, c)
  {
    if LexLess(c, a) {
      LexLessTotal(a, b);
      if LexLess(a, b) {
        LexLessTransitive(c, a, b);
      }
    }
  }
}
