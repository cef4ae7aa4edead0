/**
  The extended-filters builder: an object that accumulates the value of the
  search endpoint's `extended_filters` parameter, one filter, operator or
  parenthesis per call, and hands itself back so that calls can be chained.

  The buffer is the undeclared property the builder appends to; PHP creates
  it on the first append, so it reads as `null` until then. Each method
  appends the token `FilterTerms.Token` describes for its call, and the
  ghost list of calls made so far ties the buffer to `FilterTerms.Render`.
 */
module Builder {
  import opened Wrappers
  import opened PhpStrings
  import opened UrlCodec
  import opened Escaping
  import opened FilterTerms

  class ExtendedFiltersBuilder {
    /** The text built so far, or `None` (PHP `null`) before the first append. */
    var extendedAttributes: Option<Bytes>

    /** The calls made on this builder, in order. */
    ghost var calls: seq<Call>

    /** The buffer holds the rendering of the calls made, and is `null` only when there were none. */
    ghost predicate Valid()
      reads this
    {
      extendedAttributes == if calls == [] then None else Some(Render(calls))
    }

    /** The buffer as the string concatenation operator reads it: `null` is the empty string. */
    function Text(): Bytes
      reads this
    {
      extendedAttributes.GetOr([])
    }

    constructor()
      ensures Valid()
      ensures calls == [] && extendedAttributes == None
    {
      extendedAttributes := None;
      calls := [];
    }

    /** The filters built so far: `null` when no call was made, the rendered calls otherwise. */
    method GetExtendedFilters() returns (filters: Option<Bytes>)
      requires Valid()
      ensures filters == extendedAttributes
      ensures filters.None? <==> calls == []
      ensures filters.Some? ==> filters.value == Render(calls)
    {
      filters := extendedAttributes;
    }

    /** Appends `token` to the buffer and records `call`, whose token it is. */
    method Append(call: Call, token: Bytes)
      requires Valid()
      requires token == Token(call)
      modifies this
      ensures Valid()
      ensures calls == old(calls) + [call]
      ensures extendedAttributes == Some(old(Text()) + token)
    {
      extendedAttributes := Some(Text() + token);
      calls := calls + [call];
      RenderSnoc(old(calls), call);
    }

    /** Filters on a dataset URI. */
    method DatasetFilter(dataset: Bytes) returns (self: ExtendedFiltersBuilder)
      requires Valid()
      modifies this
      ensures Valid() && self == this
      ensures calls == old(calls) + [Call.DatasetFilter(dataset)]
      ensures extendedAttributes == Some(old(Text()) + DatasetTerm(dataset))
    {
      Append(Call.DatasetFilter(dataset), DatasetTerm(dataset));
      self := this;
    }

    /** Filters on a type URI, and also on the inferred types when inference is enabled. */
    method TypeFilter(typeUri: Bytes, enableInference: bool := false) returns (self: ExtendedFiltersBuilder)
      requires Valid()
      modifies this
      ensures Valid() && self == this
      ensures calls == old(calls) + [Call.TypeFilter(typeUri, enableInference)]
      ensures extendedAttributes == Some(old(Text()) + TypeTerm(typeUri, enableInference))
    {
      Append(Call.TypeFilter(typeUri, enableInference), TypeTerm(typeUri, enableInference));
      self := this;
    }

    /**
      Filters on the values of an attribute. A value holding any of the
      endpoint's control characters is taken to be a sub-query its caller
      has escaped and is appended as it is, unless it is a URI; any other
      value is escaped first.
     */
    method AttributeValueFilter(attribute: Bytes, value: Bytes := DefaultValue(), valueIsUri: bool := false)
      returns (self: ExtendedFiltersBuilder)
      requires Valid()
      modifies this
      ensures Valid() && self == this
      ensures calls == old(calls) + [Call.AttributeValueFilter(attribute, value, valueIsUri)]
      ensures extendedAttributes == Some(old(Text()) + AttributeValueTerm(attribute, value, valueIsUri))
    {
      var (_, found) := StrReplace(value, ControlSearch(), []);
      var written: Bytes;
      if found > 0 && !valueIsUri {
        written := value;
      } else {
        written := Escape(value);
      }
      AttributeValueToken(attribute, value, valueIsUri);
      Append(Call.AttributeValueFilter(attribute, value, valueIsUri), AttributeText(attribute, written, valueIsUri));
      self := this;
    }

    /** Appends the AND operator. */
    method And() returns (self: ExtendedFiltersBuilder)
      requires Valid()
      modifies this
      ensures Valid() && self == this
      ensures calls == old(calls) + [Call.And]
      ensures extendedAttributes == Some(old(Text()) + "+AND+")
    {
      Append(Call.And, "+AND+");
      self := this;
    }

    /** Appends the OR operator. */
    method Or() returns (self: ExtendedFiltersBuilder)
      requires Valid()
      modifies this
      ensures Valid() && self == this
      ensures calls == old(calls) + [Call.Or]
      ensures extendedAttributes == Some(old(Text()) + "+OR+")
    {
      Append(Call.Or, "+OR+");
      self := this;
    }

    /** Appends the NOT operator. */
    method Not() returns (self: ExtendedFiltersBuilder)
      requires Valid()
      modifies this
      ensures Valid() && self == this
      ensures calls == old(calls) + [Call.Not]
      ensures extendedAttributes == Some(old(Text()) + "+NOT+")
    {
      Append(Call.Not, "+NOT+");
      self := this;
    }

    /** Opens a group. */
    method StartGrouping() returns (self: ExtendedFiltersBuilder)
      requires Valid()
      modifies this
      ensures Valid() && self == this
      ensures calls == old(calls) + [Call.StartGrouping]
      ensures extendedAttributes == Some(old(Text()) + "(")
    {
      Append(Call.StartGrouping, "(");
      self := this;
    }

    /** Closes a group. */
    method EndGrouping() returns (self: ExtendedFiltersBuilder)
      requires Valid()
      modifies this
      ensures Valid() && self == this
      ensures calls == old(calls) + [Call.EndGrouping]
      ensures extendedAttributes == Some(old(Text()) + ")")
    {
      Append(Call.EndGrouping, ")");
      self := this;
    }
  }
}
