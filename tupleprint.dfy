/**
 * libgap/include/tupleprint.h: `os << t` for a `std::tuple`. Each element
 * is written with its own `operator<<`, preceded by ", " unless it is the
 * first; a `first` flag, cleared after each element, decides.
 *
 * An element is modelled by the text its own `operator<<` writes, so a
 * tuple is a sequence of strings.
 */
module TuplePrint {

  import Streams

  const Separator: string := ", "

  /** The text the operator writes, built the way the loop builds it: left to right. */
  function Join(elems: seq<string>): string
    decreases |elems|
  {
    if |elems| == 0 then []
    else if |elems| == 1 then elems[0]
    else Join(elems[..|elems| - 1]) + Separator + elems[|elems| - 1]
  }

  /** A reference definition: the first element, then ", " and the rest. */
  function JoinRef(elems: seq<string>): string
    decreases |elems|
  {
    if |elems| == 0 then []
    else if |elems| == 1 then elems[0]
    else elems[0] + Separator + JoinRef(elems[1..])
  }

  /**
   * `os << t`: writes every element in tuple order with ", " between
   * consecutive elements and returns the same stream.
   */
  method PrintTuple(os: Streams.OStream, elems: seq<string>) returns (res: Streams.OStream)
    modifies os
    ensures res == os && os.flags == old(os.flags)
    ensures os.text == old(os.text) + Join(elems)
  {
    var first := true;
    var i := 0;
    while i < |elems|
      invariant 0 <= i <= |elems|
      invariant first <==> i == 0
      invariant os.flags == old(os.flags)
      invariant os.text == old(os.text) + Join(elems[..i])
    {
      ghost var text := os.text;
      if !first {
        os.Write(Separator);
      }
      os.Write(elems[i]);
      first := false;
      JoinStep(elems, i, old(os.text), text, os.text);
      i := i + 1;
    }
    assert elems[..i] == elems;
    res := os;
  }

  /** One turn of the loop appends the next element, after ", " unless it is the first. */
  lemma JoinStep(elems: seq<string>, i: nat, start: string, text: string, text': string)
    requires i < |elems|
    requires text == start + Join(elems[..i])
    requires text' == text + (if i == 0 then [] else Separator) + elems[i]
    ensures text' == start + Join(elems[..i + 1])
  {
    var s := elems[..i + 1];
    assert s[..|s| - 1] == elems[..i];
    if i == 0 {
      assert text' == start + elems[0];
    } else {
      assert Join(s) == Join(elems[..i]) + Separator + elems[i];
    }
  }

  /** The loop's left-to-right join is the reference join. */
  lemma {:induction false} JoinIsJoinRef(elems: seq<string>)
    ensures Join(elems) == JoinRef(elems)
    decreases |elems|
  {
    if |elems| > 2 {
      var init := elems[..|elems| - 1];
      JoinIsJoinRef(init);
      JoinIsJoinRef(elems[1..]);
      JoinIsJoinRef(init[1..]);
      assert elems[1..][..|elems| - 2] == init[1..];
      assert (elems[1..])[|elems| - 2] == elems[|elems| - 1];
      JoinRefLast(elems[1..]);
      JoinRefLast(elems);
    }
  }

  /** The reference join of two or more elements splits before its last element. */
  lemma {:induction false} JoinRefLast(elems: seq<string>)
    requires |elems| >= 2
    ensures JoinRef(elems) == JoinRef(elems[..|elems| - 1]) + Separator + elems[|elems| - 1]
    decreases |elems|
  {
    var init := elems[..|elems| - 1];
    if |elems| > 2 {
      JoinRefLast(elems[1..]);
      assert elems[1..][..|elems| - 2] == init[1..];
      assert init[0] == elems[0];
    } else {
      assert init == [elems[0]];
      assert elems[1..] == [elems[1]];
    }
  }

  /** Tuple order: joining `a + b` is joining `a`, a separator, and joining `b`. */
  lemma {:induction false} JoinAppend(a: seq<string>, b: seq<string>)
    requires |a| >= 1 && |b| >= 1
    ensures Join(a + b) == Join(a) + Separator + Join(b)
    decreases |b|
  {
    var s := a + b;
    assert s[..|s| - 1] == a + b[..|b| - 1];
    if |b| == 1 {
      assert s[..|s| - 1] == a;
    } else {
      JoinAppend(a, b[..|b| - 1]);
      assert b[..|b| - 1][..|b| - 2] == b[..|b| - 2];
      assert Join(b) == Join(b[..|b| - 1]) + Separator + b[|b| - 1];
    }
  }

  /** The text starts with the first element and ends with the last one. */
  lemma {:induction false} FirstAndLast(elems: seq<string>)
    requires |elems| >= 1
    ensures elems[0] <= Join(elems)
    ensures var j := Join(elems); var e := elems[|elems| - 1];
      |e| <= |j| && j[|j| - |e|..] == e
    decreases |elems|
  {
    if |elems| > 1 {
      var init := elems[..|elems| - 1];
      FirstAndLast(init);
      PrefixExtends(elems[0], Join(init), Separator + elems[|elems| - 1]);
    }
  }

  lemma PrefixExtends(p: string, s: string, t: string)
    requires p <= s
    ensures p <= s + t
  {
    assert (s + t)[..|s|] == s;
  }

  /** How often `c` occurs in `s`. */
  function Occurrences(c: char, s: string): nat
    decreases |s|
  {
    if |s| == 0 then 0 else Occurrences(c, s[..|s| - 1]) + (if s[|s| - 1] == c then 1 else 0)
  }

  lemma {:induction false} OccurrencesAppend(c: char, s: string, t: string)
    ensures Occurrences(c, s + t) == Occurrences(c, s) + Occurrences(c, t)
    decreases |t|
  {
    if |t| == 0 {
      assert s + t == s;
    } else {
      assert (s + t)[..|s + t| - 1] == s + t[..|t| - 1];
      OccurrencesAppend(c, s, t[..|t| - 1]);
    }
  }

  lemma {:induction false} OccurrencesAbsent(c: char, s: string)
    requires forall k :: 0 <= k < |s| ==> s[k] != c
    ensures Occurrences(c, s) == 0
    decreases |s|
  {
    if |s| > 0 {
      OccurrencesAbsent(c, s[..|s| - 1]);
    }
  }

  /**
   * Separators only between consecutive elements: when no element writes a
   * ',' itself, a tuple of `n >= 1` elements holds exactly `n - 1` commas.
   */
  lemma {:induction false} SeparatorCount(elems: seq<string>)
    requires forall e, k :: e in elems && 0 <= k < |e| ==> e[k] != ','
    ensures Occurrences(',', Join(elems)) == if |elems| == 0 then 0 else |elems| - 1
    decreases |elems|
  {
    if |elems| == 1 {
      OccurrencesAbsent(',', elems[0]);
    } else if |elems| > 1 {
      var init := elems[..|elems| - 1];
      var last := elems[|elems| - 1];
      assert forall e :: e in init ==> e in elems;
      SeparatorCount(init);
      OccurrencesAbsent(',', last);
      assert Occurrences(',', Separator) == 1 by {
        assert Separator[..1] == [','];
        assert [','][..0] == [];
      }
      OccurrencesAppend(',', Join(init), Separator);
      OccurrencesAppend(',', Join(init) + Separator, last);
    }
  }

  /** The combined length of the elements' texts. */
  function TotalLength(elems: seq<string>): nat
    decreases |elems|
  {
    if |elems| == 0 then 0 else TotalLength(elems[..|elems| - 1]) + |elems[|elems| - 1]|
  }

  /** What is written is every element's text plus the two characters of each separator. */
  lemma {:induction false} JoinLength(elems: seq<string>)
    ensures |Join(elems)| == TotalLength(elems) + (if |elems| == 0 then 0 else 2 * (|elems| - 1))
    decreases |elems|
  {
    if |elems| > 1 {
      JoinLength(elems[..|elems| - 1]);
    } else if |elems| == 1 {
      assert elems[..0] == [];
    }
  }
}
