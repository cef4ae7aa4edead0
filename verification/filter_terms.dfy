/**
  The tokens the extended-filters builder appends, one per call, and what can
  be read back from them.

  A call is written as data (`Call`), its token as a function of it
  (`Token`), and a whole sequence of calls as the concatenation of their
  tokens (`Render`). The builder class keeps its buffer equal to `Render` of
  the calls made on it.

  Fixed strings are written as functions without arguments rather than
  constants, so that a proof expands them only where it names them.
 */
module FilterTerms {
  import opened Wrappers
  import opened PhpStrings
  import opened UrlCodec
  import opened Escaping

  /** One call of the builder, with its arguments. */
  datatype Call =
    | DatasetFilter(dataset: Bytes)
    | TypeFilter(typeUri: Bytes, enableInference: bool)
    | AttributeValueFilter(attribute: Bytes, value: Bytes, valueIsUri: bool)
    | And
    | Or
    | Not
    | StartGrouping
    | EndGrouping
  {
    /** A filter call adds a test; the others add an operator or a parenthesis. */
    predicate IsFilter() {
      DatasetFilter? || TypeFilter? || AttributeValueFilter?
    }
  }

  /** The value attributeValueFilter filters by when none is given: every value. */
  function DefaultValue(): Bytes { "*" }

  /** Marks an attribute whose values are URIs. */
  function UriMarker(): Bytes { "[uri]" }

  /** `s` between double quotes. */
  function Quote(s: Bytes): Bytes {
    var quote: Bytes := "\"";
    quote + s + quote
  }

  /**
    The value as attributeValueFilter writes it before encoding: left raw,
    as a sub-query the caller has escaped already, when it holds control
    characters and is not a URI; escaped otherwise.
   */
  function FilterValue(value: Bytes, valueIsUri: bool): (r: Bytes)
    ensures r == if valueIsUri || !HasReservedByte(value) then Prefixed(value, EscapedBytes()) else value
  {
    if HasControlCharacters(value) && !valueIsUri then value else Escape(value)
  }

  /**
    The value is escaped exactly when it is a URI or holds no reserved byte,
    and left as it is otherwise.
   */
  lemma FilterValueCases(value: Bytes, valueIsUri: bool)
    ensures FilterValue(value, valueIsUri) == Escape(value) <==> valueIsUri || !HasReservedByte(value)
    ensures valueIsUri || !HasReservedByte(value) || FilterValue(value, valueIsUri) == value
  {
    if HasReservedByte(value) {
      EscapeLengthensReserved(value);
    }
  }

  /** A value holding a reserved byte grows when escaped, since every reserved byte is also escaped. */
  lemma EscapeLengthensReserved(value: Bytes)
    requires HasReservedByte(value)
    ensures |Escape(value)| > |value|
  {
    var i :| 0 <= i < |value| && value[i] in ReservedBytes();
    CountInPositive(value, EscapedBytes(), i);
  }

  lemma {:induction false} CountInPositive(s: Bytes, chars: set<Byte>, i: nat)
    requires i < |s| && s[i] in chars
    ensures CountIn(s, chars) > 0
  {
    if i > 0 {
      CountInPositive(s[1..], chars, i - 1);
    }
  }

  /** The token of an attribute/value call, with the value written as the control-character count decides. */
  lemma AttributeValueToken(attribute: Bytes, value: Bytes, valueIsUri: bool)
    ensures Token(AttributeValueFilter(attribute, value, valueIsUri)) ==
            AttributeText(attribute, if StrReplace(value, ControlSearch(), []).1 > 0 && !valueIsUri then value else Escape(value), valueIsUri)
  {
    AttributeTokenText(attribute, value, valueIsUri);
    FilterValueCounted(value, valueIsUri);
  }

  lemma AttributeTokenText(attribute: Bytes, value: Bytes, valueIsUri: bool)
    ensures Token(AttributeValueFilter(attribute, value, valueIsUri)) ==
            AttributeText(attribute, FilterValue(value, valueIsUri), valueIsUri)
  {
  }

  lemma FilterValueCounted(value: Bytes, valueIsUri: bool)
    ensures FilterValue(value, valueIsUri) ==
            if StrReplace(value, ControlSearch(), []).1 > 0 && !valueIsUri then value else Escape(value)
  {
  }

  /** The space-padded keywords of the three operators, before encoding. */
  function AndKeyword(): Bytes { " AND " }
  function OrKeyword(): Bytes { " OR " }
  function NotKeyword(): Bytes { " NOT " }

  /** A field test on a URI: the field name with its `:`, then the quoted URI, encoded once. */
  function FieldTest(field: Bytes, uri: Bytes): Bytes {
    field + UrlEncode(Quote(uri))
  }

  /** `s` between parentheses. */
  function Parenthesized(s: Bytes): Bytes {
    var open: Bytes := "(";
    var close: Bytes := ")";
    open + s + close
  }

  /** The term datasetFilter appends: the test of the `dataset` field. */
  function DatasetTerm(dataset: Bytes): (r: Bytes)
    ensures |r| >= 8 && r[..8] == "dataset:"
    ensures UrlDecode(r[8..]) == Quote(dataset)
  {
    var field: Bytes := "dataset:";
    var test := FieldTest(field, dataset);
    assert test[8..] == UrlEncode(Quote(dataset));
    UrlDecodeEncode(Quote(dataset));
    test
  }

  /**
    The term typeFilter appends: the test of the `type` field; with
    inference, or-ed with the same test on `inferred_type`, in parentheses.
   */
  function TypeTerm(typeUri: Bytes, enableInference: bool): (r: Bytes)
    ensures !enableInference ==> |r| >= 5 && r[..5] == "type:" && UrlDecode(r[5..]) == Quote(typeUri)
  {
    var field: Bytes := "type:";
    var test := FieldTest(field, typeUri);
    assert test[5..] == UrlEncode(Quote(typeUri));
    UrlDecodeEncode(Quote(typeUri));
    if !enableInference then test
    else Parenthesized(test + UrlEncode(OrKeyword()) + FieldTest("inferred_type:", typeUri))
  }

  /**
    The term attributeValueFilter appends: the attribute/value text of the
    value as written, raw or escaped.
   */
  function AttributeValueTerm(attribute: Bytes, value: Bytes, valueIsUri: bool): Bytes {
    AttributeText(attribute, FilterValue(value, valueIsUri), valueIsUri)
  }

  /**
    The attribute encoded twice, the URI marker when the value is a URI, `:`,
    and the value as written, encoded twice. It holds exactly one `:`, since
    `urlencode` never writes one, and reading it back gives the attribute,
    the URI flag and the value as written.
   */
  function AttributeText(attribute: Bytes, written: Bytes, valueIsUri: bool): (r: Bytes)
    ensures CountByte(r, ':') == 1
    ensures ParseAttributeTerm(r) == Some(AttributeTerm(attribute, valueIsUri, written))
  {
    var a := UrlEncode(UrlEncode(attribute));
    var v := UrlEncode(UrlEncode(written));
    var marker: Bytes := if valueIsUri then UriMarker() else [];
    var colon: Bytes := ":";
    ParseEncodedParts(a, v, valueIsUri);
    CountEncodedParts(a, v, valueIsUri);
    DecodeTwiceEncodeTwice(attribute);
    DecodeTwiceEncodeTwice(written);
    a + marker + colon + v
  }

  /**
    The text one call appends. It is split by kind of call into
    `FilterToken`, `AttributeToken` and `KeywordToken`, each behind a
    precondition naming the calls it serves, so that a proof about one kind
    of call does not expand the tokens of the others.
   */
  function Token(call: Call): Bytes {
    if call.IsFilter() then FilterToken(call) else KeywordToken(call)
  }

  /** The token of a filter call: its field test. */
  function FilterToken(call: Call): Bytes
    requires call.IsFilter()
  {
    match call
    case DatasetFilter(dataset) => DatasetTerm(dataset)
    case TypeFilter(typeUri, enableInference) => TypeTerm(typeUri, enableInference)
    case AttributeValueFilter(_, _, _) => AttributeToken(call)
  }

  /**
    The token of an attribute/value filter call. It sits behind its own
    precondition so that the tokens of other calls are reasoned about
    without unfolding the value's escaping.
   */
  function AttributeToken(call: Call): Bytes
    requires call.AttributeValueFilter?
  {
    AttributeValueTerm(call.attribute, call.value, call.valueIsUri)
  }

  /**
    The token of an operator or a grouping call: the operator's keyword
    percent-encoded once, or the parenthesis itself.
   */
  function KeywordToken(call: Call): (r: Bytes)
    requires !call.IsFilter()
    ensures call.And? ==> r == "+AND+"
    ensures call.Or? ==> r == "+OR+"
    ensures call.Not? ==> r == "+NOT+"
    ensures call.StartGrouping? ==> r == "("
    ensures call.EndGrouping? ==> r == ")"
  {
    match call
    case StartGrouping => "("
    case EndGrouping => ")"
    case And => AndToken(); UrlEncode(OperatorKeyword(call))
    case Or => OrToken(); UrlEncode(OperatorKeyword(call))
    case Not => NotToken(); UrlEncode(OperatorKeyword(call))
  }

  /** The keyword of an operator call, before encoding. */
  function OperatorKeyword(call: Call): Bytes
    requires call.And? || call.Or? || call.Not?
  {
    if call.And? then AndKeyword() else if call.Or? then OrKeyword() else NotKeyword()
  }

  /** The text a sequence of calls leaves in a fresh builder: their tokens, in call order. */
  function Render(calls: seq<Call>): Bytes {
    RenderWith(Token, calls)
  }

  /** The concatenation of `token` of each call, in call order. */
  function RenderWith(token: Call -> Bytes, calls: seq<Call>): Bytes {
    if calls == [] then [] else RenderWith(token, calls[..|calls| - 1]) + token(calls[|calls| - 1])
  }

  lemma {:induction false} RenderWithAppend(token: Call -> Bytes, a: seq<Call>, b: seq<Call>)
    ensures RenderWith(token, a + b) == RenderWith(token, a) + RenderWith(token, b)
    decreases |b|
  {
    if b == [] {
      assert a + b == a;
    } else {
      var n := |b| - 1;
      assert (a + b)[..|a + b| - 1] == a + b[..n];
      RenderWithAppend(token, a, b[..n]);
    }
  }

  /** Rendering is compositional: the calls of two chains render as the two renderings one after the other. */
  lemma RenderAppend(a: seq<Call>, b: seq<Call>)
    ensures Render(a + b) == Render(a) + Render(b)
  {
    RenderWithAppend(Token, a, b);
  }

  /** Grouping is purely textual: the calls between a start and an end grouping are rendered between parentheses. */
  lemma GroupingWraps(calls: seq<Call>)
    ensures Render([StartGrouping] + calls + [EndGrouping]) == Parenthesized(Render(calls))
  {
    RenderAppend([StartGrouping], calls);
    RenderAppend([StartGrouping] + calls, [EndGrouping]);
    RenderSingle(StartGrouping);
    RenderSingle(EndGrouping);
  }

  /** One more call appends its token. */
  lemma RenderSnoc(calls: seq<Call>, call: Call)
    ensures Render(calls + [call]) == Render(calls) + Token(call)
  {
    assert (calls + [call])[..|calls|] == calls;
  }

  lemma RenderSingle(call: Call)
    ensures Render([call]) == Token(call)
  {
    RenderSnoc([], call);
    assert [] + [call] == [call];
  }

  /** `urlencode(" AND ")` is `+AND+`: the spaces become `+` and the letters stay. */
  lemma AndToken()
    ensures UrlEncode(AndKeyword()) == "+AND+"
  {
  }

  /** `urlencode(" OR ")` is `+OR+`. */
  lemma OrToken()
    ensures UrlEncode(OrKeyword()) == "+OR+"
  {
  }

  /** `urlencode(" NOT ")` is `+NOT+`. */
  lemma NotToken()
    ensures UrlEncode(NotKeyword()) == "+NOT+"
  {
  }

  /** A byte `urlencode` never writes occurs nowhere in its output. */
  lemma NotEncoded(s: Bytes, c: Byte)
    requires !IsEncodedByte(c)
    ensures c !in UrlEncode(s) && CountByte(UrlEncode(s), c) == 0
  {
  }

  /** With inference the type term is the term without it, or-ed with the same test on `inferred_type`, in parentheses. */
  lemma TypeTermWithInference(typeUri: Bytes)
    ensures Token(TypeFilter(typeUri, true)) ==
            Parenthesized(Token(TypeFilter(typeUri, false)) + Token(Or) + FieldTest("inferred_type:", typeUri))
  {
    OrToken();
  }

  /** The default value `*` is a control character, so it is never escaped unless the value is a URI. */
  lemma DefaultValueIsRaw()
    ensures FilterValue(DefaultValue(), false) == DefaultValue()
  {
    assert DefaultValue()[0] in ReservedBytes();
    FilterValueCases(DefaultValue(), false);
  }

  /** What can be read back from an attribute/value term. */
  datatype AttributeTerm = AttributeTerm(attribute: Bytes, valueIsUri: bool, value: Bytes)

  /** Position of the first `c` in `s`, if any. */
  function IndexOf(s: Bytes, c: Byte): (r: Option<nat>)
    ensures r.None? <==> c !in s
    ensures r.Some? ==> r.value < |s| && s[r.value] == c && c !in s[..r.value]
  {
    if s == [] then None
    else if s[0] == c then Some(0)
    else match IndexOf(s[1..], c)
      case None => None
      case Some(i) =>
        assert s[..i + 1] == [s[0]] + s[1..][..i];
        Some(i + 1)
  }

  /** The first `c` of `left + [c] + right` is the one after `left` when `left` holds none. */
  lemma {:induction false} IndexOfAfter(left: Bytes, right: Bytes, c: Byte)
    requires c !in left
    ensures IndexOf(left + [c] + right, c) == Some(|left|)
  {
    if left != [] {
      assert (left + [c] + right)[1..] == left[1..] + [c] + right;
      IndexOfAfter(left[1..], right, c);
    }
  }

  /**
    Reads an attribute/value term back: it splits at the first `:`, takes a
    trailing `[uri]` off the left part, and decodes each side twice.
   */
  function ParseAttributeTerm(term: Bytes): Option<AttributeTerm> {
    match IndexOf(term, ':')
    case None => None
    case Some(i) =>
      var (attribute, isUri) := SplitMarker(term[..i]);
      Some(AttributeTerm(UrlDecode(UrlDecode(attribute)), isUri, UrlDecode(UrlDecode(term[i + 1..]))))
  }

  /** The left part of a term without its trailing URI marker, and whether it had one. */
  function SplitMarker(left: Bytes): (Bytes, bool) {
    var n := |left| - |UriMarker()|;
    if n >= 0 && left[n..] == UriMarker() then (left[..n], true) else (left, false)
  }

  /** Every byte of `s` is one `urlencode` may write. */
  predicate AllEncoded(s: Bytes) {
    forall i :: 0 <= i < |s| ==> IsEncodedByte(s[i])
  }

  /** An encoded attribute never ends in the marker, so the marker is found exactly when it was added. */
  lemma SplitMarkerEncoded(a: Bytes, valueIsUri: bool)
    requires AllEncoded(a)
    ensures SplitMarker(a + if valueIsUri then UriMarker() else []) == (a, valueIsUri)
  {
    var left := a + if valueIsUri then UriMarker() else [];
    var n := |left| - |UriMarker()|;
    if valueIsUri {
      assert left[n..] == UriMarker();
      assert left[..n] == a;
    } else {
      assert left == a;
      if n >= 0 {
        assert left[n..][4] == a[|a| - 1];
      }
    }
  }

  /**
    A term made of an encoded attribute, the marker or nothing, `:`, and an
    encoded value splits back into those parts.
   */
  lemma ParseEncodedParts(a: Bytes, v: Bytes, valueIsUri: bool)
    requires AllEncoded(a) && AllEncoded(v)
    ensures
      var marker: Bytes := if valueIsUri then UriMarker() else [];
      ParseAttributeTerm(a + marker + [':'] + v) ==
      Some(AttributeTerm(UrlDecode(UrlDecode(a)), valueIsUri, UrlDecode(UrlDecode(v))))
  {
    var marker: Bytes := if valueIsUri then UriMarker() else [];
    var left := a + marker;
    var t := left + [':'] + v;
    assert ':' !in left by {
      assert forall i :: 0 <= i < |a| ==> left[i] == a[i];
    }
    IndexOfAfter(left, v, ':');
    assert t[..|left|] == left;
    assert t[|left| + 1..] == v;
    SplitMarkerEncoded(a, valueIsUri);
  }

  /** The only `:` of such a term is the one between its parts. */
  lemma CountEncodedParts(a: Bytes, v: Bytes, valueIsUri: bool)
    requires AllEncoded(a) && AllEncoded(v)
    ensures
      var marker: Bytes := if valueIsUri then UriMarker() else [];
      CountByte(a + marker + [':'] + v, ':') == 1
  {
    var marker: Bytes := if valueIsUri then UriMarker() else [];
    assert ':' !in a;
    assert ':' !in v;
    CountByteAppend(a + marker + [':'], v, ':');
    CountByteAppend(a + marker, [':'], ':');
    CountByteAppend(a, marker, ':');
  }

  /** Two `urldecode`s undo two `urlencode`s. */
  lemma DecodeTwiceEncodeTwice(s: Bytes)
    ensures UrlDecode(UrlDecode(UrlEncode(UrlEncode(s)))) == s
  {
    UrlDecodeEncode(UrlEncode(s));
    UrlDecodeEncode(s);
  }

  /**
    The attribute/value term holds exactly one `:`, and reading it back gives
    the attribute, the URI flag and the value as written, raw or escaped.
   */
  lemma AttributeTermRoundTrip(attribute: Bytes, value: Bytes, valueIsUri: bool)
    ensures CountByte(Token(AttributeValueFilter(attribute, value, valueIsUri)), ':') == 1
    ensures ParseAttributeTerm(Token(AttributeValueFilter(attribute, value, valueIsUri))) ==
            Some(AttributeTerm(attribute, valueIsUri, FilterValue(value, valueIsUri)))
  {
    assert Token(AttributeValueFilter(attribute, value, valueIsUri)) ==
           AttributeText(attribute, FilterValue(value, valueIsUri), valueIsUri);
  }

  /**
    Reading an attribute/value term back recovers the value the caller
    passed: after unescaping when it was escaped, as it is when it was not.
   */
  lemma AttributeValueRecovered(attribute: Bytes, value: Bytes, valueIsUri: bool)
    ensures
      var parsed := ParseAttributeTerm(Token(AttributeValueFilter(attribute, value, valueIsUri)));
      parsed.Some? &&
      (if valueIsUri || !HasReservedByte(value) then Unescape(parsed.value.value) else parsed.value.value) == value
  {
    AttributeTermRoundTrip(attribute, value, valueIsUri);
    FilterValueCases(value, valueIsUri);
    UnescapeEscape(value);
  }

  /** Number of type filters with inference among the calls; each adds one pair of parentheses. */
  function InferredTypeFilters(calls: seq<Call>): nat {
    if calls == [] then 0
    else
      var last := calls[|calls| - 1];
      InferredTypeFilters(calls[..|calls| - 1]) + if last.TypeFilter? && last.enableInference then 1 else 0
  }

  /** The token of `call` holds the parenthesis `c`: its own grouping, or the pair around a type filter with inference. */
  predicate HoldsParenthesis(call: Call, c: Byte) {
    (c == '(' && call.StartGrouping?) || (c == ')' && call.EndGrouping?) || (call.TypeFilter? && call.enableInference)
  }

  /** A field test holds no parenthesis when its field name holds none. */
  lemma FieldTestParentheses(field: Bytes, uri: Bytes, c: Byte)
    requires c == '(' || c == ')'
    requires c !in field
    ensures CountByte(FieldTest(field, uri), c) == 0
  {
    NotEncoded(Quote(uri), c);
  }

  /** Parenthesizing adds one parenthesis of each kind. */
  lemma ParenthesizedParentheses(s: Bytes, c: Byte)
    requires c == '(' || c == ')'
    ensures CountByte(Parenthesized(s), c) == CountByte(s, c) + 1
  {
    var open: Bytes := "(";
    var close: Bytes := ")";
    CountByteAppend(open, s, c);
    CountByteAppend(open + s, close, c);
  }

  /** A type term holds a parenthesis of each kind with inference and none without. */
  lemma TypeTermParentheses(typeUri: Bytes, enableInference: bool, c: Byte)
    requires c == '(' || c == ')'
    ensures CountByte(TypeTerm(typeUri, enableInference), c) == if enableInference then 1 else 0
  {
    assert c !in "type:" && c !in "inferred_type:";
    FieldTestParentheses("type:", typeUri, c);
    if enableInference {
      FieldTestParentheses("inferred_type:", typeUri, c);
      NotEncoded(OrKeyword(), c);
      DisjunctionParentheses(FieldTest("type:", typeUri), UrlEncode(OrKeyword()), FieldTest("inferred_type:", typeUri), c);
    }
  }

  lemma DisjunctionParentheses(test: Bytes, or: Bytes, inferred: Bytes, c: Byte)
    requires c == '(' || c == ')'
    requires CountByte(test, c) == 0 && CountByte(or, c) == 0 && CountByte(inferred, c) == 0
    ensures CountByte(Parenthesized(test + or + inferred), c) == 1
  {
    CountByteAppend(test, or, c);
    CountByteAppend(test + or, inferred, c);
    ParenthesizedParentheses(test + or + inferred, c);
  }

  /** An attribute/value text holds no parenthesis. */
  lemma AttributeTextParentheses(attribute: Bytes, written: Bytes, valueIsUri: bool, c: Byte)
    requires c == '(' || c == ')'
    ensures CountByte(AttributeText(attribute, written, valueIsUri), c) == 0
  {
    NotEncoded(UrlEncode(attribute), c);
    NotEncoded(UrlEncode(written), c);
    assert c !in UriMarker() && c != ':';
  }

  /** The parentheses one token holds. */
  lemma TokenParentheses(call: Call, c: Byte)
    requires c == '(' || c == ')'
    ensures CountByte(Token(call), c) == if HoldsParenthesis(call, c) then 1 else 0
  {
    if call.IsFilter() {
      FilterTokenParentheses(call, c);
    } else {
      KeywordTokenParentheses(call, c);
    }
  }

  /** The parentheses of a filter's token: only those around a type filter with inference. */
  lemma FilterTokenParentheses(call: Call, c: Byte)
    requires c == '(' || c == ')'
    requires call.IsFilter()
    ensures CountByte(Token(call), c) == if HoldsParenthesis(call, c) then 1 else 0
  {
    if call.DatasetFilter? {
      var field: Bytes := "dataset:";
      assert c !in field;
      FieldTestParentheses(field, call.dataset, c);
    } else if call.TypeFilter? {
      TypeTermParentheses(call.typeUri, call.enableInference, c);
    } else {
      AttributeTextParentheses(call.attribute, FilterValue(call.value, call.valueIsUri), call.valueIsUri, c);
    }
  }

  /** The parentheses of an operator's or a grouping's token: only the grouping's own. */
  lemma KeywordTokenParentheses(call: Call, c: Byte)
    requires c == '(' || c == ')'
    requires !call.IsFilter()
    ensures CountByte(Token(call), c) == if HoldsParenthesis(call, c) then 1 else 0
  {
    if call.StartGrouping? || call.EndGrouping? {
      assert Token(call) == [if call.StartGrouping? then '(' else ')'];
    } else {
      NotEncoded(OperatorKeyword(call), c);
    }
  }

  /** The grouping call whose token is the parenthesis `c`. */
  function GroupingOf(c: Byte): Call
    requires c == '(' || c == ')'
  {
    if c == '(' then StartGrouping else EndGrouping
  }

  /**
    The parentheses `c` of the rendered calls are those of the grouping
    calls of that kind plus one per type filter with inference.
   */
  lemma {:induction false} ParenthesisCount(calls: seq<Call>, c: Byte)
    requires c == '(' || c == ')'
    ensures CountByte(Render(calls), c) == multiset(calls)[GroupingOf(c)] + InferredTypeFilters(calls)
  {
    if calls != [] {
      var n := |calls| - 1;
      var init := calls[..n];
      ParenthesisCount(init, c);
      TokenParentheses(calls[n], c);
      CountByteAppend(Render(init), Token(calls[n]), c);
      MultisetLast(calls, GroupingOf(c));
    }
  }

  /** The multiplicity of `x` in `calls` is that in all calls but the last, plus one if the last is `x`. */
  lemma MultisetLast(calls: seq<Call>, x: Call)
    requires calls != []
    ensures multiset(calls)[x] == multiset(calls[..|calls| - 1])[x] + if calls[|calls| - 1] == x then 1 else 0
  {
    var n := |calls| - 1;
    assert calls == calls[..n] + [calls[n]];
    assert multiset(calls) == multiset(calls[..n]) + multiset{calls[n]};
  }

  /**
    The opening parentheses of the rendered calls are the start groupings
    plus one per type filter with inference, and the closing ones the end
    groupings plus the same number.
   */
  lemma ParenthesesCount(calls: seq<Call>)
    ensures CountByte(Render(calls), '(') == multiset(calls)[StartGrouping] + InferredTypeFilters(calls)
    ensures CountByte(Render(calls), ')') == multiset(calls)[EndGrouping] + InferredTypeFilters(calls)
  {
    ParenthesisCount(calls, '(');
    ParenthesisCount(calls, ')');
  }

  /** The surplus of opening over closing parentheses is that of start over end groupings. */
  lemma ParenthesisBalance(calls: seq<Call>)
    ensures CountByte(Render(calls), '(') as int - CountByte(Render(calls), ')') as int ==
            multiset(calls)[StartGrouping] as int - multiset(calls)[EndGrouping] as int
  {
    ParenthesesCount(calls);
  }
}
