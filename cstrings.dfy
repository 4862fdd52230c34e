/** Null-terminated character strings as the monitor sees them: a buffer of
    characters plus an offset, the string running up to the first '\0'. */
module CStrings {

  /** There is a null terminator at or after `from` inside `buf`. */
  predicate Terminated(buf: seq<char>, from: nat) {
    exists i :: from <= i < |buf| && buf[i] == '\0'
  }

  /** The C `strlen` of the string starting at `from`: the distance to the first null. */
  function StrLen(buf: seq<char>, from: nat): (n: nat)
    requires Terminated(buf, from)
    ensures from + n < |buf| && buf[from + n] == '\0'
    ensures forall i :: from <= i < from + n ==> buf[i] != '\0'
    decreases |buf| - from
  {
    if buf[from] == '\0' then 0
    else
      assert Terminated(buf, from + 1) by {
        var i :| from <= i < |buf| && buf[i] == '\0';
        assert i != from;
      }
      1 + StrLen(buf, from + 1)
  }

  /** The characters of the string starting at `from`, without its terminator. */
  function CStr(buf: seq<char>, from: nat): (s: seq<char>)
    requires Terminated(buf, from)
  {
    buf[from..from + StrLen(buf, from)]
  }

  /** What streq compares: the two strings agree character by character up to and
      including the first null of `a` (so `b` ends at the same place). */
  predicate SameUpToTerminator(a: seq<char>, b: seq<char>)
    requires Terminated(a, 0)
  {
    forall i :: 0 <= i <= StrLen(a, 0) ==> i < |b| && a[i] == b[i]
  }

  /** Comparing up to the terminator is the same as comparing the C strings. */
  lemma SameUpToTerminatorIsEquality(a: seq<char>, b: seq<char>)
    requires Terminated(a, 0) && Terminated(b, 0)
    ensures SameUpToTerminator(a, b) <==> CStr(a, 0) == CStr(b, 0)
  {
    var na, nb := StrLen(a, 0), StrLen(b, 0);
    if SameUpToTerminator(a, b) {
      assert b[na] == '\0';
      assert na == nb;
      assert CStr(a, 0) == CStr(b, 0) by {
        forall i | 0 <= i < na ensures CStr(a, 0)[i] == CStr(b, 0)[i] {
          assert a[i] == b[i];
        }
      }
    }
    if CStr(a, 0) == CStr(b, 0) {
      assert |CStr(a, 0)| == na && |CStr(b, 0)| == nb;
      forall i | 0 <= i <= na ensures i < |b| && a[i] == b[i] {
        if i < na {
          assert a[i] == CStr(a, 0)[i] == CStr(b, 0)[i] == b[i];
        }
      }
    }
  }

  /** The comparison does not depend on the order of its arguments. */
  lemma SameUpToTerminatorSymmetric(a: seq<char>, b: seq<char>)
    requires Terminated(a, 0) && Terminated(b, 0)
    ensures SameUpToTerminator(a, b) <==> SameUpToTerminator(b, a)
  {
    SameUpToTerminatorIsEquality(a, b);
    SameUpToTerminatorIsEquality(b, a);
  }

  /** A string never compares equal to a strictly longer string it is a prefix of. */
  lemma ProperPrefixNotSame(a: seq<char>, b: seq<char>)
    requires Terminated(a, 0) && Terminated(b, 0)
    requires StrLen(a, 0) < StrLen(b, 0) && CStr(a, 0) == CStr(b, 0)[..StrLen(a, 0)]
    ensures !SameUpToTerminator(a, b) && !SameUpToTerminator(b, a)
  {
    var na := StrLen(a, 0);
    assert a[na] == '\0' && b[na] != '\0';
    SameUpToTerminatorSymmetric(a, b);
  }

  /** streq (src/start.c:80-90): 1 when the strings are equal, 0 otherwise. */
  method StrEq(a: seq<char>, b: seq<char>) returns (r: int)
    requires Terminated(a, 0) && Terminated(b, 0)
    ensures r == 0 || r == 1
    ensures r == 1 <==> SameUpToTerminator(a, b)
    ensures r == 1 <==> CStr(a, 0) == CStr(b, 0)
  {
    SameUpToTerminatorIsEquality(a, b);
    var i := 0;
    while a[i] != '\0' && b[i] != '\0'
      invariant i <= StrLen(a, 0) && i <= StrLen(b, 0)
      invariant forall j :: 0 <= j < i ==> a[j] == b[j]
      decreases StrLen(a, 0) - i
    {
      if a[i] != b[i] {
        return 0;
      }
      i := i + 1;
    }
    if a[i] != b[i] {
      return 0;
    }
    return 1;
  }
}
