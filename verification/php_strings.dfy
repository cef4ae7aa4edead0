/**
  PHP strings and the two library routines of them that the builder relies on
  besides `urlencode`: counting a byte, and `str_replace` with an array of
  search strings and a replacement count.

  A PHP string is a sequence of bytes; a `Byte` here is a character whose code
  is below 256, so that string literals can be written as in the source.
 */
module PhpStrings {

  type Byte = c: char | c as int < 256 witness 'A'
  type Bytes = seq<Byte>

  /** Number of positions of `s` that hold `c`. */
  function CountByte(s: Bytes, c: Byte): (n: nat)
    ensures n <= |s|
    ensures n == 0 <==> c !in s
  {
    if s == [] then 0 else (if s[0] == c then 1 else 0) + CountByte(s[1..], c)
  }

  lemma {:induction false} CountByteAppend(a: Bytes, b: Bytes, c: Byte)
    ensures CountByte(a + b, c) == CountByte(a, c) + CountByte(b, c)
  {
    if a == [] {
      assert a + b == b;
    } else {
      assert (a + b)[1..] == a[1..] + b;
      CountByteAppend(a[1..], b, c);
    }
  }

  /** `needle` starts at position `i` of `s`. */
  predicate OccursAt(s: Bytes, needle: Bytes, i: nat) {
    i + |needle| <= |s| && s[i..i + |needle|] == needle
  }

  /** `needle` is a substring of `s`. */
  ghost predicate Occurs(s: Bytes, needle: Bytes) {
    exists i: nat :: OccursAt(s, needle, i)
  }

  /**
    Replacement of one non-empty search string the way PHP's str_replace does
    it: scanning from the left, replacing each occurrence and resuming after
    it, so occurrences never overlap and replaced text is never rescanned.
    The result is the new subject and the number of replacements made.
   */
  function ReplaceAll(s: Bytes, search: Bytes, replace: Bytes): (Bytes, nat)
    requires search != []
    decreases |s|
  {
    if |s| < |search| then (s, 0)
    else if s[..|search|] == search then
      var rest := ReplaceAll(s[|search|..], search, replace);
      (replace + rest.0, rest.1 + 1)
    else
      var rest := ReplaceAll(s[1..], search, replace);
      ([s[0]] + rest.0, rest.1)
  }

  /**
    str_replace(search, replace, subject, count) with an array of search
    strings: each search string in turn is replaced, over the result of the
    previous ones, by the replacement at the same position, or by the empty
    string when `replace` has run out (PHP's behaviour, and also what a plain
    string `""` as `replace` does); empty search strings are skipped. The
    count is the total over all search strings, and a call that replaced
    nothing returns its subject unchanged.
   */
  function StrReplace(s: Bytes, search: seq<Bytes>, replace: seq<Bytes>): (r: (Bytes, nat))
    ensures r.1 == 0 ==> r.0 == s
    decreases |search|, |s|
  {
    if search == [] then (s, 0)
    else
      var repl := if replace != [] then replace[0] else [];
      var step := if search[0] == [] then (s, 0) else ReplaceAll(s, search[0], repl);
      var rest := StrReplace(step.0, search[1..], if replace != [] then replace[1..] else []);
      assert step.1 == 0 ==> step.0 == s by {
        if search[0] != [] {
          ReplaceAllCountZero(s, search[0], repl);
        }
      }
      (rest.0, step.1 + rest.1)
  }

  /** A replacement pass counts nothing exactly when the search string does not occur, and then changes nothing. */
  lemma {:induction false} ReplaceAllCountZero(s: Bytes, search: Bytes, replace: Bytes)
    requires search != []
    ensures ReplaceAll(s, search, replace).1 == 0 <==> !Occurs(s, search)
    ensures ReplaceAll(s, search, replace).1 == 0 ==> ReplaceAll(s, search, replace).0 == s
    decreases |s|
  {
    if |s| >= |search| {
      if s[..|search|] == search {
        assert OccursAt(s, search, 0);
      } else {
        var t := s[1..];
        ReplaceAllCountZero(t, search, replace);
        if Occurs(s, search) {
          var i: nat :| OccursAt(s, search, i);
          assert i != 0;
          assert t[i - 1..i - 1 + |search|] == s[i..i + |search|];
          assert OccursAt(t, search, i - 1);
        }
        if Occurs(t, search) {
          var j: nat :| OccursAt(t, search, j);
          assert s[j + 1..j + 1 + |search|] == t[j..j + |search|];
          assert OccursAt(s, search, j + 1);
        }
        if ReplaceAll(t, search, replace).1 == 0 {
          assert [s[0]] + t == s;
        }
      }
    }
  }

  /** The total count of str_replace is zero exactly when no non-empty search string occurs in the subject. */
  lemma {:induction false} StrReplaceCountZero(s: Bytes, search: seq<Bytes>, replace: seq<Bytes>)
    ensures StrReplace(s, search, replace).1 == 0 <==>
            forall k :: 0 <= k < |search| && search[k] != [] ==> !Occurs(s, search[k])
    decreases |search|
  {
    if search != [] {
      var repl := if replace != [] then replace[0] else [];
      var replRest := if replace != [] then replace[1..] else [];
      var step := if search[0] == [] then (s, 0) else ReplaceAll(s, search[0], repl);
      if search[0] != [] {
        ReplaceAllCountZero(s, search[0], repl);
      }
      StrReplaceCountZero(step.0, search[1..], replRest);
      if step.1 == 0 {
        assert step.0 == s;
        forall k | 1 <= k < |search| ensures search[k] == search[1..][k - 1] { }
      }
    }
  }

  /** Replacing a single byte works position by position, so it distributes over concatenation. */
  lemma {:induction false} ReplaceByteAppend(a: Bytes, b: Bytes, c: Byte, replace: Bytes)
    ensures ReplaceAll(a + b, [c], replace).0 == ReplaceAll(a, [c], replace).0 + ReplaceAll(b, [c], replace).0
    decreases |a|
  {
    if a == [] {
      assert a + b == b;
    } else {
      assert (a + b)[1..] == a[1..] + b;
      assert (a + b)[..1] == a[..1];
      ReplaceByteAppend(a[1..], b, c, replace);
    }
  }
}
