/** The URL builder (`url_from_dict`): a fixed route-search template with the
    percent-encoded origin address in the `from` field and the percent-encoded
    destination address in both the `to` and the `kw` fields. The partner view
    reads the query back as its `key=value` fields. */
module UrlBuilder {
  import opened Text
  import opened Rows
  import opened PercentEncoding

  const Base := "https://transit.yahoo.co.jp/search/result"
  const Head := Base + "?from="
  const Mid := "&flatlon=&to="
  /** The fixed fields between `to` and `kw`. */
  const FixedFields := "viacode=&viacode=&viacode=&shin=&ex=&hb=&al=&lb=&sr="
    + "&type=1&ws=3&s=&ei=&fl=1&tl=3&expkind=1&ticket=ic&mtf=1&userpass=0"
    + "&detour_id=&fromgid=&togid="
  /** "&viacode=&viacode=&viacode=&shin=&ex=&hb=&al=&lb=&sr=&type=1&ws=3&s=&ei=
      &fl=1&tl=3&expkind=1&ticket=ic&mtf=1&userpass=0&detour_id=&fromgid=
      &togid=&kw=" (one line in the template). */
  const Tail := "&" + FixedFields + "&kw="

  /** The dictionary `url_from_dict` returns: `{"url": url, "dict": dict}`. */
  datatype UrlRequest = UrlRequest(url: string, dict: Record)

  /** `url_from_dict`: the record is passed through unchanged beside its URL. */
  function UrlFromDict(d: Record): (r: UrlRequest)
    ensures r.dict == d
  {
    var startEncoded := Quote(d.teacher.address);
    var endEncoded := Quote(d.location.address);
    UrlRequest(Head + startEncoded + Mid + endEncoded + Tail + endEncoded, d)
  }

  // ---------------------------------------------------------------------
  // Reading a URL's query back
  // ---------------------------------------------------------------------

  datatype Field = Field(key: string, value: string)

  /** The query: everything after the first `?`. */
  function QueryOf(url: string): string {
    if Contains(url, "?") then After(url, "?") else ""
  }

  /** One `key=value` piece, split at its first `=`. */
  function FieldOf(piece: string): Field {
    if Contains(piece, "=") then Field(Before(piece, "="), After(piece, "=")) else Field(piece, "")
  }

  function FieldsOf(pieces: seq<string>): (r: seq<Field>)
    ensures |r| == |pieces|
  {
    if pieces == [] then [] else [FieldOf(pieces[0])] + FieldsOf(pieces[1..])
  }

  /** The query's fields in order: split at every `&`, then each at its first `=`. */
  function QueryFields(url: string): seq<Field> {
    FieldsOf(Split(QueryOf(url), '&'))
  }

  /** The fields the template always carries between `to` and `kw`. */
  function TemplateFields(): seq<Field> {
    FieldsOf(Split(FixedFields, '&'))
  }

  lemma FieldsOfAppend(a: seq<string>, b: seq<string>)
    ensures FieldsOf(a + b) == FieldsOf(a) + FieldsOf(b)
  {
    if a != [] {
      assert (a + b)[1..] == a[1..] + b;
      FieldsOfAppend(a[1..], b);
    } else {
      assert a + b == b;
    }
  }

  /** `key=value` with no `=` in the key reads back as that key and value. */
  lemma FieldOfPair(key: string, value: string)
    requires '=' !in key
    ensures FieldOf(key + "=" + value) == Field(key, value)
  {
    BeforeAtSeparator(key, "=", value);
  }

  /** The endpoint ends at the template's only `?`, and the query starts
      right after it. The template's pieces are parameters here so that the
      proof never unfolds their text. */
  lemma QueryOfTemplate(base: string, head: string, mid: string, tail: string, qf: string, qt: string)
    requires head == base + "?from=" && '?' !in base
    ensures Contains(head + qf + mid + qt + tail + qt, "?")
    ensures Before(head + qf + mid + qt + tail + qt, "?") == base
    ensures QueryOf(head + qf + mid + qt + tail + qt) == "from=" + qf + mid + qt + tail + qt
  {
    var rest := "from=" + qf + mid + qt + tail + qt;
    assert "?from=" == "?" + "from=";
    assert head + qf + mid + qt + tail + qt == base + "?" + rest;
    BeforeAtSeparator(base, "?", rest);
  }

  /** The pieces of a split, consed one by one in front of the middle part's
      pieces and the last piece, make one list. */
  lemma ConsedPieces<T>(x1: T, x2: T, x3: T, middle: seq<T>, x4: T)
    ensures [x1] + ([x2] + ([x3] + (middle + [x4]))) == [x1, x2, x3] + middle + [x4]
  {
  }

  /** A URL built from the template goes to the route-search endpoint, and
      its query starts after its `?`. */
  lemma TemplateQuery(qf: string, qt: string)
    ensures Contains(Head + qf + Mid + qt + Tail + qt, "?")
    ensures Before(Head + qf + Mid + qt + Tail + qt, "?") == Base
    ensures QueryOf(Head + qf + Mid + qt + Tail + qt) == "from=" + qf + Mid + qt + Tail + qt
  {
    assert '?' !in Base;
    QueryOfTemplate(Base, Head, Mid, Tail, qf, qt);
  }

  /** Splitting at four separators around a middle part that holds more. */
  lemma SplitAroundMiddle(a1: string, a2: string, a3: string, fixed: string, a4: string, c: char)
    requires c !in a1 && c !in a2 && c !in a3 && c !in a4
    ensures Split(a1 + [c] + (a2 + [c] + (a3 + [c] + (fixed + [c] + a4))), c) ==
      [a1, a2, a3] + Split(fixed, c) + [a4]
  {
    var t3 := fixed + [c] + a4;
    var t2 := a3 + [c] + t3;
    var t1 := a2 + [c] + t2;
    SplitSnoc(fixed, c, a4);
    SplitCons(a3, c, t3);
    SplitCons(a2, c, t2);
    SplitCons(a1, c, t1);
    ConsedPieces(a1, a2, a3, Split(fixed, c), a4);
  }

  /** Splitting the query at `&` when the encoded segments hold none. */
  lemma SplitTemplateQuery(mid: string, tail: string, fixed: string, qf: string, qt: string)
    requires mid == "&flatlon=&to=" && tail == "&" + fixed + "&kw="
    requires '&' !in qf && '&' !in qt
    ensures Split("from=" + qf + mid + qt + tail + qt, '&') ==
      ["from=" + qf, "flatlon=", "to=" + qt] + Split(fixed, '&') + ["kw=" + qt]
  {
    assert "from=" + qf + mid + qt + tail + qt ==
      ("from=" + qf) + "&" + ("flatlon=" + "&" + (("to=" + qt) + "&" + (fixed + "&" + ("kw=" + qt)))) by {
      assert "&flatlon=&to=" == "&" + "flatlon=" + "&" + "to=";
      assert "&kw=" == "&" + "kw=";
    }
    assert '&' !in "from=" + qf && '&' !in "to=" + qt && '&' !in "kw=" + qt by {
      assert '&' !in "from=" && '&' !in "to=" && '&' !in "kw=";
    }
    SplitAroundMiddle("from=" + qf, "flatlon=", "to=" + qt, fixed, "kw=" + qt, '&');
  }

  lemma FieldsOfSingle(piece: string)
    ensures FieldsOf([piece]) == [FieldOf(piece)]
  {
    assert [piece][1..] == [];
  }

  lemma FieldsOfThree(x: string, y: string, z: string)
    ensures FieldsOf([x, y, z]) == [FieldOf(x), FieldOf(y), FieldOf(z)]
  {
    assert [x, y, z][1..] == [y, z];
    assert [y, z][1..] == [z];
    FieldsOfSingle(z);
  }

  /** Three `key=value` pieces read back as their fields. */
  lemma ThreeFields(k1: string, v1: string, k2: string, v2: string, k3: string, v3: string)
    requires '=' !in k1 && '=' !in k2 && '=' !in k3
    ensures FieldsOf([k1 + "=" + v1, k2 + "=" + v2, k3 + "=" + v3]) ==
      [Field(k1, v1), Field(k2, v2), Field(k3, v3)]
  {
    FieldsOfThree(k1 + "=" + v1, k2 + "=" + v2, k3 + "=" + v3);
    FieldOfPair(k1, v1);
    FieldOfPair(k2, v2);
    FieldOfPair(k3, v3);
  }

  /** The three fields in front of the template's own. */
  lemma FrontFields(qf: string, qt: string)
    ensures FieldsOf(["from=" + qf, "flatlon=", "to=" + qt]) ==
      [Field("from", qf), Field("flatlon", ""), Field("to", qt)]
  {
    assert "from=" + qf == "from" + "=" + qf;
    assert "flatlon=" == "flatlon" + "=" + "";
    assert "to=" + qt == "to" + "=" + qt;
    ThreeFields("from", qf, "flatlon", "", "to", qt);
  }

  /** The last field. */
  lemma KwField(qt: string)
    ensures FieldsOf(["kw=" + qt]) == [Field("kw", qt)]
  {
    assert "kw=" + qt == "kw" + "=" + qt;
    FieldOfPair("kw", qt);
    FieldsOfSingle("kw=" + qt);
  }

  /** Reading the pieces back as fields. */
  lemma TemplateFieldsOf(fixedPieces: seq<string>, qf: string, qt: string)
    ensures FieldsOf(["from=" + qf, "flatlon=", "to=" + qt] + fixedPieces + ["kw=" + qt]) ==
      [Field("from", qf), Field("flatlon", ""), Field("to", qt)] + FieldsOf(fixedPieces) + [Field("kw", qt)]
  {
    var front := ["from=" + qf, "flatlon=", "to=" + qt];
    FrontFields(qf, qt);
    KwField(qt);
    FieldsOfAppend(front + fixedPieces, ["kw=" + qt]);
    FieldsOfAppend(front, fixedPieces);
  }

  /** The query of every URL the builder makes, field by field. */
  lemma QueryFieldsOfUrl(d: Record)
    ensures QueryFields(UrlFromDict(d).url) ==
      [Field("from", Quote(d.teacher.address)), Field("flatlon", ""), Field("to", Quote(d.location.address))]
      + TemplateFields()
      + [Field("kw", Quote(d.location.address))]
  {
    var qf, qt := Quote(d.teacher.address), Quote(d.location.address);
    QuoteHasNoDelimiters(d.teacher.address);
    QuoteHasNoDelimiters(d.location.address);
    TemplateQuery(qf, qt);
    SplitTemplateQuery(Mid, Tail, FixedFields, qf, qt);
    TemplateFieldsOf(Split(FixedFields, '&'), qf, qt);
  }

  /** Every URL the builder makes goes to the route-search endpoint, and in
      its query `from` holds the encoded origin, `to` and the last field `kw`
      the encoded destination, and every other field is the template's own,
      whatever the addresses are. */
  lemma UrlQueryFields(d: Record)
    ensures Contains(UrlFromDict(d).url, "?") && Before(UrlFromDict(d).url, "?") == Base
    ensures QueryFields(UrlFromDict(d).url) ==
      [Field("from", Quote(d.teacher.address)), Field("flatlon", ""), Field("to", Quote(d.location.address))]
      + TemplateFields()
      + [Field("kw", Quote(d.location.address))]
  {
    TemplateQuery(Quote(d.teacher.address), Quote(d.location.address));
    QueryFieldsOfUrl(d);
  }

  /** Decoding the `from`, `to` and `kw` fields gives back the UTF-8 bytes of
      the origin and destination addresses. */
  lemma UrlCarriesAddresses(d: Record)
    ensures var fs := QueryFields(UrlFromDict(d).url);
      && |fs| == |TemplateFields()| + 4
      && fs[0].key == "from" && Unquote(fs[0].value) == Some(Utf8(d.teacher.address))
      && fs[2].key == "to" && Unquote(fs[2].value) == Some(Utf8(d.location.address))
      && fs[|fs| - 1].key == "kw" && Unquote(fs[|fs| - 1].value) == Some(Utf8(d.location.address))
  {
    var qf, qt := Quote(d.teacher.address), Quote(d.location.address);
    var fs := QueryFields(UrlFromDict(d).url);
    QueryFieldsOfUrl(d);
    var front := [Field("from", qf), Field("flatlon", ""), Field("to", qt)];
    assert fs == front + TemplateFields() + [Field("kw", qt)];
    assert fs[0] == Field("from", qf) && fs[2] == Field("to", qt) && fs[|fs| - 1] == Field("kw", qt);
    UnquoteQuote(Utf8(d.teacher.address));
    UnquoteQuote(Utf8(d.location.address));
  }

  /** The URL depends on the two addresses only, never on the names. */
  lemma UrlOfAddressesOnly(d1: Record, d2: Record)
    requires d1.teacher.address == d2.teacher.address && d1.location.address == d2.location.address
    ensures UrlFromDict(d1).url == UrlFromDict(d2).url
  {
  }

  /** Records whose addresses encode differently get different URLs. */
  lemma UrlDeterminesAddresses(d1: Record, d2: Record)
    requires UrlFromDict(d1).url == UrlFromDict(d2).url
    ensures Utf8(d1.teacher.address) == Utf8(d2.teacher.address)
    ensures Utf8(d1.location.address) == Utf8(d2.location.address)
  {
    UrlCarriesAddresses(d1);
    UrlCarriesAddresses(d2);
  }
}
