/**
 * Small definitions shared by the models: an optional value (the models'
 * stand-in for a NULL-or-pointer result) and facts about sequences without
 * repeated elements (the server-side subscriber and watcher lists).
 */
module Common {

  /** A value that may be absent; `None` plays the role of a NULL pointer. */
  datatype Option<T> = None | Some(value: T)

  /** No element occurs twice in `s`. */
  ghost predicate NoDup<T>(s: seq<T>)
  {
    forall p, q :: 0 <= p < q < |s| ==> s[p] != s[q]
  }

  /** Splitting off the head of a non-empty left operand of a concatenation. */
  lemma ConsAppend<T>(s: seq<T>, t: seq<T>)
    requires s != []
    ensures s + t == [s[0]] + (s[1..] + t)
  {
    assert s == [s[0]] + s[1..];
  }

  /** `s` with its first occurrence of `x` taken out (`s` itself when `x` is absent). */
  function RemoveFirst<T(==)>(s: seq<T>, x: T): (r: seq<T>)
    ensures x in s ==> |r| == |s| - 1
    ensures x !in s ==> r == s
    ensures forall y :: y in r ==> y in s
  {
    if s == [] then []
    else if s[0] == x then s[1..]
    else [s[0]] + RemoveFirst(s[1..], x)
  }

  /** Taking an element out of a list without repeats removes exactly that element. */
  lemma {:induction false} RemoveFirstNoDup<T>(s: seq<T>, x: T)
    requires NoDup(s)
    ensures NoDup(RemoveFirst(s, x))
    ensures forall y :: y in RemoveFirst(s, x) <==> y in s && y != x
  {
    if s != [] && s[0] != x {
      assert NoDup(s[1..]) by {
        forall p, q | 0 <= p < q < |s[1..]| ensures s[1..][p] != s[1..][q] {
          assert s[1..][p] == s[p + 1] && s[1..][q] == s[q + 1];
        }
      }
      RemoveFirstNoDup(s[1..], x);
      var r := RemoveFirst(s[1..], x);
      assert s[0] !in r by {
        forall p | 0 <= p < |s[1..]| ensures s[1..][p] != s[0] {
          assert s[1..][p] == s[p + 1];
        }
      }
      assert NoDup([s[0]] + r) by {
        forall p, q | 0 <= p < q < |[s[0]] + r| ensures ([s[0]] + r)[p] != ([s[0]] + r)[q] {
          if p == 0 {
            assert ([s[0]] + r)[q] == r[q - 1];
          } else {
            assert ([s[0]] + r)[p] == r[p - 1] && ([s[0]] + r)[q] == r[q - 1];
          }
        }
      }
    } else if s != [] {
      forall y | y in s[1..] ensures y != x {
        var p :| 0 <= p < |s[1..]| && s[1..][p] == y;
        assert s[p + 1] == y;
      }
    }
  }

  /** Appending an element that is not in a list without repeats keeps it without repeats. */
  lemma NoDupAppend<T>(s: seq<T>, x: T)
    requires NoDup(s) && x !in s
    ensures NoDup(s + [x])
  {
    forall p, q | 0 <= p < q < |s| + 1 ensures (s + [x])[p] != (s + [x])[q] {
      if q == |s| {
        assert (s + [x])[p] == s[p];
      }
    }
  }

  /** A list without repeats has as many elements as the set of its elements. */
  lemma {:induction false} NoDupCard<T>(s: seq<T>)
    requires NoDup(s)
    ensures |set x | x in s| == |s|
  {
    if s != [] {
      var t := s[1..];
      assert NoDup(t) by {
        forall p, q | 0 <= p < q < |t| ensures t[p] != t[q] {
          assert t[p] == s[p + 1] && t[q] == s[q + 1];
        }
      }
      NoDupCard(t);
      assert s[0] !in t by {
        forall p | 0 <= p < |t| ensures t[p] != s[0] {
          assert t[p] == s[p + 1];
        }
      }
      assert (set x | x in s) == (set x | x in t) + {s[0]} by {
        assert s == [s[0]] + t;
      }
    }
  }
}
