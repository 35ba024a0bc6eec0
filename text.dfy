/**
 * String operations the survey-cleaning script relies on: splitting a line on
 * commas and joining fields back, Python's ordering of strings, and Python 2's
 * `str.lower()`.
 */
module Text {

  datatype Option<T> = None | Some(value: T)

  // ---------------------------------------------------------------------------
  // `line.split(",")` and its inverse, the comma-join
  // ---------------------------------------------------------------------------

  /** `s.split(",")`: the pieces of s between commas, in order; never empty. */
  function Split(s: string): (parts: seq<string>)
    ensures |parts| >= 1
  {
    if s == [] then [""]
    else
      var rest := Split(s[1..]);
      if s[0] == ',' then [""] + rest
      else [[s[0]] + rest[0]] + rest[1..]
  }

  /** `",".join(parts)`. */
  function Join(parts: seq<string>): string
  {
    if |parts| == 0 then ""
    else if |parts| == 1 then parts[0]
    else parts[0] + "," + Join(parts[1..])
  }

  predicate CommaFree(s: string)
  {
    ',' !in s
  }

  predicate AllCommaFree(parts: seq<string>)
  {
    forall i :: 0 <= i < |parts| ==> CommaFree(parts[i])
  }

  /** Joining one more field appends a comma and the field. */
  lemma {:induction false} JoinSnoc(parts: seq<string>, p: string)
    requires |parts| >= 1
    ensures Join(parts + [p]) == Join(parts) + ("," + p)
  {
    if |parts| == 1 {
      assert (parts + [p])[1..] == [p];
    } else {
      assert (parts + [p])[1..] == parts[1..] + [p];
      JoinSnoc(parts[1..], p);
    }
  }

  /** No field that `split` returns contains a comma. */
  lemma {:induction false} SplitFieldsCommaFree(s: string)
    ensures AllCommaFree(Split(s))
  {
    if s != [] {
      SplitFieldsCommaFree(s[1..]);
      var rest := Split(s[1..]);
      if s[0] != ',' {
        assert CommaFree(rest[0]);
        assert CommaFree([s[0]] + rest[0]);
        assert forall i :: 1 <= i < |Split(s)| ==> Split(s)[i] == rest[i];
      } else {
        assert forall i :: 1 <= i < |Split(s)| ==> Split(s)[i] == rest[i - 1];
      }
    }
  }

  /** The comma-join of `s.split(",")` is s itself. */
  lemma {:induction false} JoinOfSplit(s: string)
    ensures Join(Split(s)) == s
  {
    if s != [] {
      JoinOfSplit(s[1..]);
      var rest := Split(s[1..]);
      if s[0] == ',' {
        assert ([""] + rest)[1..] == rest;
      } else if |rest| == 1 {
        assert Split(s) == [[s[0]] + rest[0]];
      } else {
        var parts := Split(s);
        assert parts[0] == [s[0]] + rest[0];
        assert parts[1..] == rest[1..];
        assert s == [s[0]] + s[1..];
      }
    }
  }

  /** Splitting a comma-free prefix glued onto t extends t's first field. */
  lemma {:induction false} SplitCommaFreePrefix(p: string, t: string)
    requires CommaFree(p)
    ensures Split(p + t) == [p + Split(t)[0]] + Split(t)[1..]
  {
    if p == [] {
      assert p + t == t;
      assert p + Split(t)[0] == Split(t)[0];
      assert Split(t) == [Split(t)[0]] + Split(t)[1..];
    } else {
      assert (p + t)[1..] == p[1..] + t;
      SplitCommaFreePrefix(p[1..], t);
      assert [p[0]] + (p[1..] + Split(t)[0]) == p + Split(t)[0];
    }
  }

  /** Splitting the comma-join of comma-free fields gives the fields back. */
  lemma {:induction false} SplitOfJoin(parts: seq<string>)
    requires |parts| >= 1 && AllCommaFree(parts)
    ensures Split(Join(parts)) == parts
  {
    assert CommaFree(parts[0]);
    if |parts| == 1 {
      SplitCommaFreePrefix(parts[0], "");
      assert parts[0] + "" == parts[0];
    } else {
      var tail := parts[1..];
      assert AllCommaFree(tail) by {
        forall i | 0 <= i < |tail| ensures CommaFree(tail[i]) {
          assert tail[i] == parts[i + 1];
        }
      }
      SplitOfJoin(tail);
      var rest := "," + Join(tail);
      assert Join(parts) == parts[0] + rest;
      assert rest[1..] == Join(tail);
      assert Split(rest) == [""] + tail;
      SplitCommaFreePrefix(parts[0], rest);
      assert parts[0] + "" == parts[0];
      assert Split(Join(parts)) == [parts[0]] + tail;
    }
  }

  /** A character other than a comma occurs in a comma-join exactly when it
      occurs in one of the fields. */
  lemma {:induction false} JoinOmits(parts: seq<string>, c: char)
    requires c != ','
    ensures c !in Join(parts) <==> forall i :: 0 <= i < |parts| ==> c !in parts[i]
  {
    if |parts| > 1 {
      JoinOmits(parts[1..], c);
      assert forall i :: 1 <= i < |parts| ==> parts[i] == parts[1..][i - 1];
      assert c in parts[0] + "," + Join(parts[1..]) <==> c in parts[0] || c in Join(parts[1..]);
    }
  }

  // ---------------------------------------------------------------------------
  // Python's ordering of strings: lexicographic by character code
  // ---------------------------------------------------------------------------

  /** `a < b` on Python strings (Dafny's `<` on sequences means proper prefix). */
  predicate LexLess(a: string, b: string)
  {
    if b == [] then false
    else if a == [] then true
    else if a[0] != b[0] then a[0] < b[0]
    else LexLess(a[1..], b[1..])
  }

  lemma {:induction false} LexIrreflexive(a: string)
    ensures !LexLess(a, a)
  {
    if a != [] {
      LexIrreflexive(a[1..]);
    }
  }

  lemma {:induction false} LexTransitive(a: string, b: string, c: string)
    requires LexLess(a, b) && LexLess(b, c)
    ensures LexLess(a, c)
  {
    if a != [] && a[0] == b[0] && b[0] == c[0] {
      LexTransitive(a[1..], b[1..], c[1..]);
    }
  }

  /** Any two different strings are ordered one way or the other. */
  lemma {:induction false} LexTotal(a: string, b: string)
    requires a != b
    ensures LexLess(a, b) || LexLess(b, a)
  {
    if a != [] && b != [] && a[0] == b[0] {
      assert a == [a[0]] + a[1..] && b == [b[0]] + b[1..];
      LexTotal(a[1..], b[1..]);
    }
  }

  lemma LexAsymmetric(a: string, b: string)
    requires LexLess(a, b)
    ensures !LexLess(b, a)
  {
    if LexLess(b, a) {
      LexTransitive(a, b, a);
      LexIrreflexive(a);
    }
  }

  /** "Not less than" is transitive: the greatest-so-far stays an upper bound. */
  lemma LexAtLeastTransitive(a: string, b: string, c: string)
    requires !LexLess(a, b) && !LexLess(b, c)
    ensures !LexLess(a, c)
  {
    if a != b && b != c {
      LexTotal(a, b);
      LexTotal(b, c);
      if LexLess(a, c) {
        LexTransitive(b, a, c);
      }
    }
  }

  /** Python's `max(a, b)` on strings: b when `b > a`, otherwise a. */
  function LexMax(a: string, b: string): (m: string)
    ensures m == a || m == b
    ensures !LexLess(m, a) && !LexLess(m, b)
  {
    LexIrreflexive(a);
    LexIrreflexive(b);
    if LexLess(a, b) then
      LexAsymmetric(a, b);
      b
    else
      a
  }

  // ---------------------------------------------------------------------------
  // Python 2 `str.lower()` (C locale: only ASCII letters change)
  // ---------------------------------------------------------------------------

  function LowerChar(c: char): char
  {
    if 'A' <= c <= 'Z' then (c as int - 'A' as int + 'a' as int) as char else c
  }

  function Lower(s: string): string
  {
    if s == [] then [] else [LowerChar(s[0])] + Lower(s[1..])
  }

  /** `[s.lower() for s in accepted]`. */
  function LowerAll(ss: seq<string>): seq<string>
  {
    if ss == [] then [] else [Lower(ss[0])] + LowerAll(ss[1..])
  }

  /** Equal up to the case of ASCII letters, character by character. */
  predicate EqualIgnoringCase(a: string, b: string)
  {
    |a| == |b| && forall i :: 0 <= i < |a| ==> LowerChar(a[i]) == LowerChar(b[i])
  }

  lemma {:induction false} LowerEqualIffIgnoringCase(a: string, b: string)
    ensures Lower(a) == Lower(b) <==> EqualIgnoringCase(a, b)
  {
    if a != [] && b != [] {
      LowerEqualIffIgnoringCase(a[1..], b[1..]);
      assert Lower(a)[0] == LowerChar(a[0]) && Lower(b)[0] == LowerChar(b[0]);
      assert Lower(a)[1..] == Lower(a[1..]) && Lower(b)[1..] == Lower(b[1..]);
      if EqualIgnoringCase(a, b) {
        assert EqualIgnoringCase(a[1..], b[1..]) by {
          forall i | 0 <= i < |a| - 1 ensures LowerChar(a[1..][i]) == LowerChar(b[1..][i]) {
            assert a[1..][i] == a[i + 1] && b[1..][i] == b[i + 1];
          }
        }
      }
      if Lower(a) == Lower(b) {
        forall i | 0 <= i < |a| ensures LowerChar(a[i]) == LowerChar(b[i]) {
          if i > 0 {
            assert a[1..][i - 1] == a[i] && b[1..][i - 1] == b[i];
          }
        }
      }
    } else if a != [] || b != [] {
      LowerLength(a);
      LowerLength(b);
    }
  }

  lemma {:induction false} LowerLength(s: string)
    ensures |Lower(s)| == |s|
  {
    if s != [] {
      LowerLength(s[1..]);
    }
  }

  /** `x.lower() in [s.lower() for s in accepted]` holds exactly when x equals
      some accepted string up to case. */
  lemma {:induction false} LowerInLowerAll(x: string, accepted: seq<string>)
    ensures Lower(x) in LowerAll(accepted) <==> exists j :: 0 <= j < |accepted| && EqualIgnoringCase(x, accepted[j])
  {
    if accepted != [] {
      LowerInLowerAll(x, accepted[1..]);
      LowerEqualIffIgnoringCase(x, accepted[0]);
      var tail := accepted[1..];
      assert forall j :: 1 <= j < |accepted| ==> accepted[j] == tail[j - 1];
      if exists j :: 0 <= j < |accepted| && EqualIgnoringCase(x, accepted[j]) {
        var j :| 0 <= j < |accepted| && EqualIgnoringCase(x, accepted[j]);
        if j > 0 {
          assert EqualIgnoringCase(x, tail[j - 1]);
        }
      }
    }
  }
}
