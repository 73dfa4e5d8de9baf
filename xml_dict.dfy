/** Conversion of a parsed XML element tree into the nested dictionary shape that the
    market-data downloaders store: element text under "text", attribute k under "@k",
    child elements under their (namespace-stripped) tag, repeated tags collapsed into
    a list in document order. */
module XmlDict {
  import opened Wrappers

  /** A parsed XML element: its tag (possibly "{namespace}local"), the text before its
      first child (None when the parser found none), its attributes (name, value) and its
      children, both in document order. */
  datatype Element = Element(tag: string, text: Option<string>, attrib: seq<(string, string)>, children: seq<Element>)

  /** The JSON-like values the conversion produces: None, a string, a dictionary or a list. */
  datatype Value = Null | Str(s: string) | Obj(fields: map<string, Value>) | List(items: seq<Value>)

  // ---------------------------------------------------------------------------
  // Python's str.strip() without arguments
  // ---------------------------------------------------------------------------

  /** The characters str.isspace() accepts: the Unicode characters of category Zs
      or of bidirectional class WS, B or S. */
  predicate IsSpace(ch: char) {
    var c := ch as int;
    || (9 <= c <= 13) || (28 <= c <= 32) || c == 0x85 || c == 0xA0
    || c == 0x1680 || (0x2000 <= c <= 0x200A) || c == 0x2028 || c == 0x2029
    || c == 0x202F || c == 0x205F || c == 0x3000
  }

  /** Drops leading whitespace. */
  function TrimLeft(s: string): (r: string)
    ensures |r| <= |s| && r == s[|s| - |r|..]
    ensures forall k | 0 <= k < |s| - |r| :: IsSpace(s[k])
    ensures r == [] || !IsSpace(r[0])
  {
    if s != [] && IsSpace(s[0]) then TrimLeft(s[1..]) else s
  }

  /** Drops trailing whitespace. */
  function TrimRight(s: string): (r: string)
    ensures |r| <= |s| && r == s[..|r|]
    ensures forall k | |r| <= k < |s| :: IsSpace(s[k])
    ensures r == [] || !IsSpace(r[|r| - 1])
  {
    if s != [] && IsSpace(s[|s| - 1]) then TrimRight(s[..|s| - 1]) else s
  }

  /** str.strip(): the text with surrounding whitespace removed. It is a contiguous
      part of the input, it neither starts nor ends with whitespace, and it is empty
      exactly when the input is all whitespace. */
  function Strip(s: string): (r: string)
    ensures r == [] || (!IsSpace(r[0]) && !IsSpace(r[|r| - 1]))
    ensures r == [] <==> forall k | 0 <= k < |s| :: IsSpace(s[k])
  {
    var l := TrimLeft(s);
    var r := TrimRight(l);
    assert r == s[|s| - |l|..|s| - |l| + |r|];
    r
  }

  /** The stripped text is a contiguous part of the original. */
  lemma StripIsSlice(s: string)
    ensures exists i, j :: 0 <= i <= j <= |s| && Strip(s) == s[i..j]
  {
    var l := TrimLeft(s);
    assert Strip(s) == s[|s| - |l|..|s| - |l| + |Strip(s)|];
  }

  /** `text and text.strip()`: the element has text with a non-whitespace character. */
  predicate HasText(text: Option<string>) {
    text.Some? && Strip(text.value) != []
  }

  // ---------------------------------------------------------------------------
  // Namespace stripping
  // ---------------------------------------------------------------------------

  /** Index of the first '}' in s, or |s| when there is none. */
  function FirstBrace(s: string): (i: nat)
    ensures i <= |s|
    ensures i < |s| ==> s[i] == '}'
    ensures forall k | 0 <= k < i :: s[k] != '}'
  {
    if s == [] || s[0] == '}' then 0 else 1 + FirstBrace(s[1..])
  }

  /** `tag.split('}', 1)[1]` when the tag holds a '}', the tag itself otherwise. */
  function StripNs(tag: string): string {
    var i := FirstBrace(tag);
    if i < |tag| then tag[i + 1..] else tag
  }

  /** A tag in ElementTree's "{uri}local" form loses exactly its namespace part, and
      stripping the local name again changes nothing (the downloader strips child
      tags a second time inside the conversion). */
  lemma StripNsClark(ns: string, local: string)
    requires '}' !in ns && '}' !in local
    ensures StripNs("{" + ns + "}" + local) == local
    ensures StripNs(StripNs("{" + ns + "}" + local)) == local
  {
    var t := "{" + ns + "}" + local;
    var i := FirstBrace(t);
    assert t[|ns| + 1] == '}';
    assert forall k | 0 <= k < |ns| + 1 :: t[k] == ("{" + ns)[k];
    assert i == |ns| + 1;
    assert t[i + 1..] == local;
    assert FirstBrace(local) == |local|;
  }

  /** The parser's pass over every element (`root.iter()`), rewriting each tag in place;
      here as a function returning the rewritten tree. */
  function StripAll(e: Element): (r: Element)
    decreases e
    ensures r.tag == StripNs(e.tag) && r.text == e.text && r.attrib == e.attrib
    ensures |r.children| == |e.children|
    ensures forall i | 0 <= i < |e.children| :: r.children[i] == StripAll(e.children[i])
  {
    Element(StripNs(e.tag), e.text, e.attrib,
            seq(|e.children|, i requires 0 <= i < |e.children| => StripAll(e.children[i])))
  }

  // ---------------------------------------------------------------------------
  // root_to_dict
  // ---------------------------------------------------------------------------

  /** The "text" entry: present when the element has non-blank text. */
  function TextField(text: Option<string>): map<string, Value> {
    if HasText(text) then map["text" := Str(Strip(text.value))] else map[]
  }

  /** The dictionary key of attribute k. */
  function AttrKey(k: string): string {
    "@" + k
  }

  /** The "@k" entries, one per attribute, added in attribute order. */
  function AttribFields(attrib: seq<(string, string)>): map<string, Value>
  {
    if attrib == [] then map[]
    else AttribFields(attrib[..|attrib| - 1])[AttrKey(attrib[|attrib| - 1].0) := Str(attrib[|attrib| - 1].1)]
  }

  /** Attribute names are distinct, as in any well-formed XML element. */
  predicate DistinctNames(attrib: seq<(string, string)>) {
    forall i, j | 0 <= i < j < |attrib| :: attrib[i].0 != attrib[j].0
  }

  /** Every attribute (k, v) appears as "@k" mapped to v, and nothing else appears. */
  lemma {:induction false} AttribFieldsExact(attrib: seq<(string, string)>)
    requires DistinctNames(attrib)
    ensures forall i | 0 <= i < |attrib| ::
              AttrKey(attrib[i].0) in AttribFields(attrib) && AttribFields(attrib)[AttrKey(attrib[i].0)] == Str(attrib[i].1)
    ensures forall key | key in AttribFields(attrib) :: exists i :: 0 <= i < |attrib| && key == AttrKey(attrib[i].0)
  {
    if attrib != [] {
      var n := |attrib| - 1;
      AttribFieldsExact(attrib[..n]);
      forall i | 0 <= i < n ensures AttrKey(attrib[i].0) != AttrKey(attrib[n].0) {
        assert AttrKey(attrib[i].0)[1..] == attrib[i].0;
        assert AttrKey(attrib[n].0)[1..] == attrib[n].0;
      }
    }
  }

  /** The raw element text, returned when the element has nothing else. */
  function RawText(text: Option<string>): (v: Value)
    ensures !v.List? && !v.Obj?
  {
    match text
    case None => Null
    case Some(t) => Str(t)
  }

  /** `root_to_dict(element)`. The result is never a list, which is what lets the
      grouping of repeated children tell a first occurrence from a collected list. */
  function RootToDict(e: Element): (v: Value)
    decreases e, 2
    ensures !v.List?
  {
    var fields := Fields(e);
    if fields == map[] then RawText(e.text) else Obj(fields)
  }

  /** The dictionary built for an element: its text entry, then its attribute entries,
      then its children's entries, each later one overwriting a same-named earlier one. */
  function Fields(e: Element): map<string, Value>
    decreases e, 1
  {
    TextField(e.text) + AttribFields(e.attrib) + Group(ChildPairs(e))
  }

  /** Each child, in document order, as (stripped tag, converted child). */
  function ChildPairs(e: Element): (ps: seq<(string, Value)>)
    decreases e, 0
    ensures |ps| == |e.children|
    ensures forall i | 0 <= i < |ps| :: ps[i].0 == StripNs(e.children[i].tag) && !ps[i].1.List?
  {
    seq(|e.children|, i requires 0 <= i < |e.children| => (StripNs(e.children[i].tag), RootToDict(e.children[i])))
  }

  /** The `children` dictionary built child by child: a tag seen once maps to its
      value; on the second occurrence the entry becomes a list, and later occurrences
      are appended to it. */
  function Group(ps: seq<(string, Value)>): map<string, Value> {
    if ps == [] then map[]
    else
      var acc := Group(ps[..|ps| - 1]);
      var (tag, data) := ps[|ps| - 1];
      if tag in acc then
        if acc[tag].List? then acc[tag := List(acc[tag].items + [data])]
        else acc[tag := List([acc[tag], data])]
      else acc[tag := data]
  }

  /** Reference: the values whose tag is `tag`, in order. */
  function Tagged(ps: seq<(string, Value)>, tag: string): seq<Value> {
    if ps == [] then []
    else Tagged(ps[..|ps| - 1], tag) + (if ps[|ps| - 1].0 == tag then [ps[|ps| - 1].1] else [])
  }

  /** What one dictionary entry holds for a run of same-tag children. */
  function Collapse(vs: seq<Value>): Value {
    if |vs| == 1 then vs[0] else List(vs)
  }

  /** The tags of the pairs. */
  function Tags(ps: seq<(string, Value)>): set<string> {
    set i | 0 <= i < |ps| :: ps[i].0
  }

  /** The reference list is non-empty exactly when some pair carries the tag, and it
      holds only values of the pairs. */
  lemma {:induction false} TaggedNonEmpty(ps: seq<(string, Value)>, tag: string)
    ensures Tagged(ps, tag) != [] <==> tag in Tags(ps)
    ensures forall v | v in Tagged(ps, tag) :: exists i :: 0 <= i < |ps| && ps[i] == (tag, v)
  {
    if ps != [] {
      var n := |ps| - 1;
      TaggedNonEmpty(ps[..n], tag);
      assert Tags(ps) == Tags(ps[..n]) + {ps[n].0};
      forall v | v in Tagged(ps, tag) ensures exists i :: 0 <= i < |ps| && ps[i] == (tag, v) {
        if v in Tagged(ps[..n], tag) {
          var i :| 0 <= i < n && ps[..n][i] == (tag, v);
          assert ps[i] == (tag, v);
        } else {
          assert ps[n] == (tag, v);
        }
      }
    }
  }

  /** Grouping is exact: a tag is a key iff some pair carries it; a tag carried once
      maps to that value, a tag carried two or more times maps to the list of all its
      values in order. This needs the values themselves not to be lists. */
  lemma {:induction false} GroupExact(ps: seq<(string, Value)>, tag: string)
    requires forall i | 0 <= i < |ps| :: !ps[i].1.List?
    ensures tag in Group(ps) <==> Tagged(ps, tag) != []
    ensures tag in Group(ps) ==> Group(ps)[tag] == Collapse(Tagged(ps, tag))
  {
    if ps != [] {
      var n := |ps| - 1;
      GroupExact(ps[..n], tag);
      var prev := Tagged(ps[..n], tag);
      var acc := Group(ps[..n]);
      var (ctag, data) := ps[n];
      if ctag == tag {
        assert Tagged(ps, tag) == prev + [data];
        if tag in acc && |prev| == 1 {
          TaggedNonEmpty(ps[..n], tag);
          assert prev[0] in prev;
          var i :| 0 <= i < n && ps[..n][i] == (tag, prev[0]);
          assert !ps[i].1.List?;
          assert [prev[0], data] == prev + [data];
        }
      } else {
        assert Tagged(ps, tag) == prev;
      }
    }
  }

  /** The stripped tags of the element's children. */
  function ChildTags(e: Element): set<string> {
    set i | 0 <= i < |e.children| :: StripNs(e.children[i].tag)
  }

  /** The children of the element with the given stripped tag, converted, in document order. */
  function ChildrenTagged(e: Element, tag: string): seq<Value> {
    Tagged(ChildPairs(e), tag)
  }

  /** The children's entries: one per distinct stripped child tag, holding the child's
      conversion when one child carries the tag and the list of all their conversions,
      in document order, when several do. */
  lemma ChildEntries(e: Element, tag: string)
    ensures tag in Group(ChildPairs(e)) <==> tag in ChildTags(e)
    ensures tag in ChildTags(e) ==> Group(ChildPairs(e))[tag] == Collapse(ChildrenTagged(e, tag))
  {
    var ps := ChildPairs(e);
    GroupExact(ps, tag);
    TaggedNonEmpty(ps, tag);
    if tag in ChildTags(e) {
      var i :| 0 <= i < |e.children| && StripNs(e.children[i].tag) == tag;
      assert ps[i].0 == tag;
    }
  }

  /** `root_to_dict(element)` is a dictionary exactly when the element has non-blank
      text, an attribute or a child; otherwise it is the raw element text. */
  lemma RootToDictKind(e: Element)
    ensures RootToDict(e).Obj? <==> (HasText(e.text) || e.attrib != [] || e.children != [])
    ensures !RootToDict(e).Obj? ==> RootToDict(e) == RawText(e.text)
    ensures RootToDict(e).Obj? ==> RootToDict(e).fields == Fields(e)
  {
    if e.children != [] {
      ChildEntries(e, StripNs(e.children[0].tag));
      assert StripNs(e.children[0].tag) in Fields(e);
    }
    if e.attrib != [] {
      var n := |e.attrib| - 1;
      assert AttrKey(e.attrib[n].0) in AttribFields(e.attrib);
    }
    if HasText(e.text) {
      assert "text" in TextField(e.text);
    }
  }

  /** The keys of the dictionary: "text" for non-blank text, "@k" per attribute k, and
      the stripped tags of the children. */
  lemma FieldsKeys(e: Element)
    ensures Fields(e).Keys == TextField(e.text).Keys + AttribFields(e.attrib).Keys + ChildTags(e)
  {
    forall tag ensures tag in Group(ChildPairs(e)) <==> tag in ChildTags(e) {
      ChildEntries(e, tag);
    }
  }

  /** Attribute k with value s appears as "@k" mapped to s, unless a child's tag is
      literally "@k". */
  lemma FieldsAttribute(e: Element, i: nat)
    requires DistinctNames(e.attrib)
    requires i < |e.attrib| && AttrKey(e.attrib[i].0) !in ChildTags(e)
    ensures AttrKey(e.attrib[i].0) in Fields(e) && Fields(e)[AttrKey(e.attrib[i].0)] == Str(e.attrib[i].1)
  {
    AttribFieldsExact(e.attrib);
    ChildEntries(e, AttrKey(e.attrib[i].0));
  }

  /** Non-blank text appears stripped under "text", unless an attribute or child is
      named "text" (no attribute key can be, since each starts with "@"). */
  lemma FieldsText(e: Element)
    requires HasText(e.text) && "text" !in ChildTags(e)
    ensures "text" in Fields(e) && Fields(e)["text"] == Str(Strip(e.text.value))
  {
    ChildEntries(e, "text");
    if "text" in AttribFields(e.attrib) {
      AttribFieldsKeys(e.attrib);
      assert false;
    }
  }

  /** Every attribute key starts with "@". */
  lemma {:induction false} AttribFieldsKeys(attrib: seq<(string, string)>)
    ensures forall key | key in AttribFields(attrib) :: |key| > 0 && key[0] == '@'
  {
    if attrib != [] {
      AttribFieldsKeys(attrib[..|attrib| - 1]);
    }
  }

  /** Children win over same-named text or attribute entries. */
  lemma FieldsChild(e: Element, tag: string)
    requires tag in ChildTags(e)
    ensures tag in Fields(e) && Fields(e)[tag] == Collapse(ChildrenTagged(e, tag))
  {
    ChildEntries(e, tag);
  }

  /** `parse_xml_to_dict`: a document that failed to parse (None) becomes the empty
      dictionary; otherwise every tag is namespace-stripped and the root converted,
      which gives a dictionary exactly when the root has non-blank text, an attribute
      or a child, and the root's raw text otherwise. */
  function ParseXmlToDict(parsed: Option<Element>): (v: Value)
    ensures parsed.None? ==> v == Obj(map[])
    ensures parsed.Some? ==> !v.List?
    ensures parsed.Some? ==>
      (v.Obj? <==> (HasText(parsed.value.text) || parsed.value.attrib != [] || parsed.value.children != []))
    ensures parsed.Some? && !v.Obj? ==> v == RawText(parsed.value.text)
  {
    match parsed
    case None => Obj(map[])
    case Some(root) =>
      RootToDictKind(StripAll(root));
      RootToDict(StripAll(root))
  }
}
