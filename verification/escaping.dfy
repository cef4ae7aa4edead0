/**
  The two uses of str_replace in the attribute/value filter: the private
  `escape` method, which puts a backslash before each byte the search
  endpoint reserves, and the test for control characters, which only looks at
  how many replacements str_replace made.
 */
module Escaping {
  import opened PhpStrings

  /** The search strings of `escape`, in the order str_replace applies them. */
  function EscapeSearch(): seq<Bytes> {
    ["\\", "+", "-", "&", "|", "!", "(", ")", "{", "}", "[", "]", "^", "~", "*", "?", ":", "\"", ";", " "]
  }

  /** The replacement for each search string of `escape`: the same byte behind a backslash. */
  function EscapeReplace(): seq<Bytes> {
    ["\\\\", "\\+", "\\-", "\\&", "\\|", "\\!", "\\(", "\\)", "\\{", "\\}", "\\[", "\\]", "\\^", "\\~", "\\*",
     "\\?", "\\:", "\\\"", "\\;", "\\ "]
  }

  /** The bytes `escape` puts a backslash before. */
  function EscapedBytes(): set<Byte> {
    {'\\', '+', '-', '&', '|', '!', '(', ')', '{', '}', '[', ']', '^', '~', '*', '?', ':', '"', ';', ' '}
  }

  /**
    The search strings of the control-character test. The replacement is the
    empty string; only the number of replacements is used.
   */
  function ControlSearch(): seq<Bytes> {
    [" OR ", " AND ", " NOT ", "\\", "+", "-", "&", "|", "!", "(", ")", "{", "}", "[", "]", "^", "~", "*", "?",
     "\"", ";", " "]
  }

  /** The single bytes among the control search strings. Unlike the escaped bytes they lack `:`. */
  function ReservedBytes(): set<Byte> {
    {'\\', '+', '-', '&', '|', '!', '(', ')', '{', '}', '[', ']', '^', '~', '*', '?', '"', ';', ' '}
  }

  /** `s` with a backslash before each byte that is in `chars`, every other byte kept as it is. */
  function Prefixed(s: Bytes, chars: set<Byte>): (r: Bytes)
    ensures |r| == |s| + CountIn(s, chars)
  {
    if s == [] then []
    else (if s[0] in chars then ['\\', s[0]] else [s[0]]) + Prefixed(s[1..], chars)
  }

  /** Number of positions of `s` holding a byte of `chars`. */
  function CountIn(s: Bytes, chars: set<Byte>): nat {
    if s == [] then 0 else (if s[0] in chars then 1 else 0) + CountIn(s[1..], chars)
  }

  /**
    One replacement pass for a byte not yet escaped. The backslashes written by
    the earlier passes are not touched, because the backslash was the first
    byte escaped.
   */
  lemma {:induction false} PrefixStep(s: Bytes, done: set<Byte>, c: Byte)
    requires c !in done
    requires done == {} || '\\' in done
    ensures ReplaceAll(Prefixed(s, done), [c], ['\\', c]).0 == Prefixed(s, done + {c})
  {
    if s != [] {
      var head: Bytes := if s[0] in done then ['\\', s[0]] else [s[0]];
      assert Prefixed(s, done) == head + Prefixed(s[1..], done);
      ReplaceByteAppend(head, Prefixed(s[1..], done), c, ['\\', c]);
      PrefixStep(s[1..], done, c);
      if s[0] in done {
        assert head[1..] == [s[0]];
        assert ReplaceAll(head, [c], ['\\', c]).0 == head;
      }
    }
  }

  /** Only the text str_replace produces is carried from one pass to the next. */
  lemma StrReplaceFirst(s: Bytes, search: seq<Bytes>, replace: seq<Bytes>)
    requires search != [] && replace != [] && search[0] != []
    ensures StrReplace(s, search, replace).0 ==
            StrReplace(ReplaceAll(s, search[0], replace[0]).0, search[1..], replace[1..]).0
  {
  }

  /**
    The pass of a str_replace table at position `k`, when that entry puts a
    backslash before a byte `c` that no earlier pass has escaped.
   */
  lemma PassAt(s: Bytes, done: set<Byte>, search: seq<Bytes>, replace: seq<Bytes>, k: nat, c: Byte)
    requires k < |search| == |replace|
    requires search[k] == [c] && replace[k] == ['\\', c]
    requires c !in done
    requires done == {} || '\\' in done
    ensures StrReplace(Prefixed(s, done), search[k..], replace[k..]).0 ==
            StrReplace(Prefixed(s, done + {c}), search[k + 1..], replace[k + 1..]).0
  {
    PrefixStep(s, done, c);
    StrReplaceFirst(Prefixed(s, done), search[k..], replace[k..]);
    assert search[k..][1..] == search[k + 1..] && replace[k..][1..] == replace[k + 1..];
  }

  /** The bytes `escape` puts a backslash before, in the order its passes handle them. */
  function EscapeOrder(): seq<Byte> {
    ['\\', '+', '-', '&', '|', '!', '(', ')', '{', '}', '[', ']', '^', '~', '*', '?', ':', '"', ';', ' ']
  }

  /** The bytes of `s`. */
  function Members(s: seq<Byte>): set<Byte> {
    set c | c in s
  }

  /** No byte occurs twice in `s`. */
  predicate Distinct(s: seq<Byte>) {
    forall i, j :: 0 <= i < j < |s| ==> s[i] != s[j]
  }

  /** Entry `k` of `search` is the byte `order[k]`, and entry `k` of `replace` is that byte behind a backslash. */
  predicate EscapesInOrder(search: seq<Bytes>, replace: seq<Bytes>, order: seq<Byte>) {
    && |search| == |order| && |replace| == |order|
    && forall k :: 0 <= k < |order| ==> search[k] == [order[k]] && replace[k] == ['\\', order[k]]
  }

  /**
    `escape`'s two tables put each of 20 distinct bytes behind a backslash,
    the backslash itself first, and together they cover the escaped bytes.
   */
  lemma EscapeTablesAreSource()
    ensures EscapesInOrder(EscapeSearch(), EscapeReplace(), EscapeOrder())
    ensures Distinct(EscapeOrder()) && EscapeOrder()[0] == '\\'
    ensures Members(EscapeOrder()) == EscapedBytes()
  {
    EscapeTablesInOrder();
    EscapeOrderDistinct();
    EscapeOrderMembers();
  }

  lemma EscapeTablesInOrder()
    ensures EscapesInOrder(EscapeSearch(), EscapeReplace(), EscapeOrder())
  {
  }

  lemma EscapeOrderDistinct()
    ensures Distinct(EscapeOrder())
  {
  }

  lemma EscapeOrderMembers()
    ensures Members(EscapeOrder()) == EscapedBytes()
  {
  }

  /**
    The passes of such a table from entry `k` on, applied after the first
    `k`, leave one backslash before each byte of the table.
   */
  lemma {:induction false} EscapePassesFrom(s: Bytes, search: seq<Bytes>, replace: seq<Bytes>, order: seq<Byte>, k: nat)
    requires EscapesInOrder(search, replace, order) && Distinct(order)
    requires 1 <= k <= |order| && order[0] == '\\'
    ensures StrReplace(Prefixed(s, Members(order[..k])), search[k..], replace[k..]).0 == Prefixed(s, Members(order))
    decreases |order| - k
  {
    if k == |order| {
      assert order[..k] == order;
    } else {
      var done := Members(order[..k]);
      var c := order[k];
      assert order[..k][0] == '\\';
      assert c !in order[..k];
      assert done + {c} == Members(order[..k + 1]) by {
        assert order[..k + 1] == order[..k] + [c];
      }
      PassAt(s, done, search, replace, k, c);
      EscapePassesFrom(s, search, replace, order, k + 1);
    }
  }

  /** The whole str_replace of such a table leaves one backslash before each byte of the table. */
  lemma EscapeTablesPrefix(s: Bytes, search: seq<Bytes>, replace: seq<Bytes>, order: seq<Byte>)
    requires EscapesInOrder(search, replace, order) && Distinct(order)
    requires order != [] && order[0] == '\\'
    ensures StrReplace(s, search, replace).0 == Prefixed(s, Members(order))
  {
    PrefixedNothing(s);
    PassAt(s, {}, search, replace, 0, '\\');
    assert {} + {'\\'} == Members(order[..1]) by {
      assert order[..1] == ['\\'];
    }
    assert search[0..] == search && replace[0..] == replace;
    EscapePassesFrom(s, search, replace, order, 1);
  }

  /** The sequential str_replace of `escape` equals one backslash before each escaped byte. */
  lemma EscapeIsPrefixed(s: Bytes)
    ensures StrReplace(s, EscapeSearch(), EscapeReplace()).0 == Prefixed(s, EscapedBytes())
  {
    EscapeTablesAreSource();
    EscapeTablesPrefix(s, EscapeSearch(), EscapeReplace(), EscapeOrder());
  }

  /**
    The private `escape` method: the source's sequential str_replace, which
    puts one backslash before each escaped byte and leaves every
    other byte as it is.
   */
  function Escape(s: Bytes): (r: Bytes)
    ensures r == Prefixed(s, EscapedBytes())
    ensures |r| == |s| + CountIn(s, EscapedBytes())
  {
    EscapeIsPrefixed(s);
    StrReplace(s, EscapeSearch(), EscapeReplace()).0
  }

  lemma {:induction false} PrefixedNothing(s: Bytes)
    ensures Prefixed(s, {}) == s
  {
    if s != [] {
      PrefixedNothing(s[1..]);
    }
  }

  /** Drops the backslash in front of each escaped byte. */
  function Unescape(s: Bytes): (r: Bytes)
    ensures |r| <= |s|
  {
    if s == [] then []
    else if s[0] == '\\' && |s| >= 2 then [s[1]] + Unescape(s[2..])
    else [s[0]] + Unescape(s[1..])
  }

  /** Unescaping undoes prefixing, as long as the backslash itself is prefixed. */
  lemma {:induction false} UnescapePrefixed(s: Bytes, chars: set<Byte>)
    requires '\\' in chars
    ensures Unescape(Prefixed(s, chars)) == s
  {
    if s != [] {
      var t := Prefixed(s, chars);
      UnescapePrefixed(s[1..], chars);
      if s[0] in chars {
        assert t[2..] == Prefixed(s[1..], chars);
      } else {
        assert t[1..] == Prefixed(s[1..], chars);
      }
    }
  }

  /** `escape` loses nothing: unescaping its output gives back its input. */
  lemma UnescapeEscape(s: Bytes)
    ensures Unescape(Escape(s)) == s
  {
    UnescapePrefixed(s, EscapedBytes());
  }

  /**
    The test of the attribute/value filter: str_replace of the control search
    strings by the empty string made at least one replacement. That happens
    exactly when the value holds a reserved byte: the three operator words
    all contain a space, which is searched for on its own.
   */
  predicate HasControlCharacters(value: Bytes)
    ensures HasControlCharacters(value) <==> HasReservedByte(value)
  {
    ControlSearchStartsReserved();
    ControlSearchHasReserved();
    CountPositiveIff(value, ControlSearch(), ReservedBytes());
    StrReplace(value, ControlSearch(), []).1 > 0
  }

  /** Some byte of `s` is reserved. */
  predicate HasReservedByte(s: Bytes) {
    exists i :: 0 <= i < |s| && s[i] in ReservedBytes()
  }

  lemma ControlSearchStartsReserved()
    ensures forall n :: n in ControlSearch() ==> n != [] && n[0] in ReservedBytes()
  {
  }

  lemma ControlSearchHasReserved()
    ensures forall c :: c in ReservedBytes() ==> [c] in ControlSearch()
  {
  }

  /**
    When every search string starts with a byte of `bytes` and each byte of
    `bytes` is itself searched for, replacing by the empty string counts
    something exactly when the subject holds a byte of `bytes`.
   */
  lemma CountPositiveIff(s: Bytes, search: seq<Bytes>, bytes: set<Byte>)
    requires forall n :: n in search ==> n != [] && n[0] in bytes
    requires forall c :: c in bytes ==> [c] in search
    ensures StrReplace(s, search, []).1 > 0 <==> exists i :: 0 <= i < |s| && s[i] in bytes
  {
    StrReplaceCountZero(s, search, []);
    if i :| 0 <= i < |s| && s[i] in bytes {
      var k :| 0 <= k < |search| && search[k] == [s[i]];
      assert OccursAt(s, search[k], i);
    }
    if StrReplace(s, search, []).1 > 0 {
      var k :| 0 <= k < |search| && search[k] != [] && Occurs(s, search[k]);
      var i: nat :| OccursAt(s, search[k], i);
      assert s[i] == search[k][0];
    }
  }
}
