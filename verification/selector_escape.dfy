/**
 The id escape `jq` of the site's header script: before every occurrence of
 one of the seven characters that jQuery selectors treat specially
 (`:` `.` `[` `]` `,` `=` `@`) it inserts a single backslash, and it copies
 every other character as it is. The global regular-expression replacement
 is modelled by its effect on each character, not by regex semantics.
 */
module SelectorEscape {

  const Backslash: char := '\\'

  /** True for the seven characters the escape puts a backslash in front of. */
  predicate IsMeta(c: char) {
    c == ':' || c == '.' || c == '[' || c == ']' || c == ',' || c == '=' || c == '@'
  }

  /** The replacement text for one input character. */
  function EscapeChar(c: char): seq<char> {
    if IsMeta(c) then [Backslash, c] else [c]
  }

  /** How many of the seven characters occur in `s`. */
  function MetaCount(s: seq<char>): nat {
    if s == [] then 0 else (if IsMeta(s[0]) then 1 else 0) + MetaCount(s[1..])
  }

  /** The escape itself: each character replaced by its escape, in order. */
  function Jq(id: seq<char>): (r: seq<char>)
    ensures |r| == |id| + MetaCount(id)
  {
    if id == [] then [] else EscapeChar(id[0]) + Jq(id[1..])
  }

  /**
   Undoes the escape: scanning left to right, a backslash directly followed by
   one of the seven characters is dropped; everything else is kept.
   */
  function Unescape(t: seq<char>): (r: seq<char>)
    ensures |r| <= |t|
  {
    if t == [] then []
    else if |t| >= 2 && t[0] == Backslash && IsMeta(t[1]) then [t[1]] + Unescape(t[2..])
    else [t[0]] + Unescape(t[1..])
  }

  /** Where `s[i]` (or the backslash put before it) lands in the escaped text,
      and that it lands there intact. */
  ghost predicate Placed(s: seq<char>, r: seq<char>, i: int)
    requires 0 <= i < |s|
  {
    var p := i + MetaCount(s[..i]);
    if IsMeta(s[i]) then p + 1 < |r| && r[p] == Backslash && r[p + 1] == s[i]
    else p < |r| && r[p] == s[i]
  }

  /** Every one of the seven characters in `r` has a backslash right before it. */
  ghost predicate NoBareMeta(r: seq<char>) {
    forall j :: 0 <= j < |r| && IsMeta(r[j]) ==> 0 < j && r[j - 1] == Backslash
  }

  /** Escaping distributes over concatenation: the replacement is global and
      each match is one character, so no match straddles a boundary. */
  lemma {:induction false} JqAppend(a: seq<char>, b: seq<char>)
    ensures Jq(a + b) == Jq(a) + Jq(b)
  {
    if a == [] {
      assert a + b == b;
    } else {
      assert (a + b)[1..] == a[1..] + b;
      JqAppend(a[1..], b);
    }
  }

  lemma {:induction false} JqSplitAt(s: seq<char>, i: int)
    requires 0 <= i < |s|
    ensures Jq(s) == Jq(s[..i]) + EscapeChar(s[i]) + Jq(s[i + 1..])
  {
    var pre, c, post := s[..i], s[i], s[i + 1..];
    assert s == pre + ([c] + post);
    JqAppend(pre, [c] + post);
    assert ([c] + post)[1..] == post;
    assert Jq([c] + post) == EscapeChar(c) + Jq(post);
  }

  /**
   Contents and order: the `i`-th input character appears at position
   `i + MetaCount(s[..i])` of the output, preceded by exactly one inserted
   backslash when it is one of the seven and copied unchanged otherwise.
   */
  lemma JqPlacesEveryChar(s: seq<char>)
    ensures forall i :: 0 <= i < |s| ==> Placed(s, Jq(s), i)
  {
    forall i | 0 <= i < |s|
      ensures Placed(s, Jq(s), i)
    {
      JqSplitAt(s, i);
    }
  }

  /** The output never holds one of the seven characters without its backslash. */
  lemma {:induction false} JqLeavesNoBareMeta(s: seq<char>)
    ensures NoBareMeta(Jq(s))
  {
    if s != [] {
      var e, rest := EscapeChar(s[0]), Jq(s[1..]);
      JqLeavesNoBareMeta(s[1..]);
      var r := Jq(s);
      assert r == e + rest;
      forall j | 0 <= j < |r| && IsMeta(r[j])
        ensures 0 < j && r[j - 1] == Backslash
      {
        if j >= |e| {
          assert rest[j - |e|] == r[j];
        }
      }
    }
  }

  lemma {:induction false} MetaCountZero(s: seq<char>)
    ensures MetaCount(s) == 0 <==> forall i :: 0 <= i < |s| ==> !IsMeta(s[i])
  {
    if s != [] {
      MetaCountZero(s[1..]);
      assert forall i :: 1 <= i < |s| ==> s[i] == s[1..][i - 1];
    }
  }

  lemma {:induction false} JqFixesMetaFree(s: seq<char>)
    requires forall i :: 0 <= i < |s| ==> !IsMeta(s[i])
    ensures Jq(s) == s
  {
    if s != [] {
      assert forall i :: 0 <= i < |s[1..]| ==> s[1..][i] == s[i + 1];
      JqFixesMetaFree(s[1..]);
    }
  }

  /** An id comes back unchanged exactly when it holds none of the seven characters. */
  lemma {:induction false} JqIdentityIff(s: seq<char>)
    ensures Jq(s) == s <==> forall i :: 0 <= i < |s| ==> !IsMeta(s[i])
  {
    MetaCountZero(s);
    if forall i :: 0 <= i < |s| ==> !IsMeta(s[i]) {
      JqFixesMetaFree(s);
    }
  }

  /** Reversibility: dropping each backslash that precedes one of the seven
      characters restores the original id. */
  lemma {:induction false} UnescapeJq(s: seq<char>)
    ensures Unescape(Jq(s)) == s
  {
    if s != [] {
      var c, rest := s[0], Jq(s[1..]);
      UnescapeJq(s[1..]);
      if IsMeta(c) {
        assert Jq(s) == [Backslash, c] + rest;
        assert Jq(s)[2..] == rest;
      } else {
        assert Jq(s) == [c] + rest;
        assert Jq(s)[1..] == rest;
        if c == Backslash && |rest| > 0 {
          JqLeavesNoBareMeta(s[1..]);
          assert !IsMeta(rest[0]);
        }
      }
    }
  }

  /** Distinct ids give distinct selectors. */
  lemma JqInjective(a: seq<char>, b: seq<char>)
    ensures Jq(a) == Jq(b) ==> a == b
  {
    UnescapeJq(a);
    UnescapeJq(b);
  }
}
