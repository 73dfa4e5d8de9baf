/** Reading fields of a converted ENTSO-E document (`get_text`, `ensure_list`):
    the dictionaries built by `root_to_dict` hold a leaf's text under "text", and a
    child tag holds either one converted child or the list of all of them. */
module EntsoeFields {
  import opened Wrappers
  import opened XmlDict

  /** `get_text`: a dictionary's "text" entry ("" when it has none), "" for None and
      the string itself for a string. For a list the source returns its printed
      form, which is not modelled: None here. */
  function GetText(v: Value): (r: Option<Value>)
    ensures r.None? <==> v.List?
    ensures v.Null? ==> r == Some(Str(""))
    ensures v.Str? ==> r == Some(v)
    ensures v.Obj? && "text" in v.fields ==> r == Some(v.fields["text"])
    ensures v.Obj? && "text" !in v.fields ==> r == Some(Str(""))
  {
    match v
    case Null => Some(Str(""))
    case Str(s) => Some(Str(s))
    case Obj(m) => Some(MapGet(m, "text", Str("")))
    case List(_) => None
  }

  /** `ensure_list`: None gives the empty list, a list is returned as it is and any
      other value becomes a one-element list. */
  function EnsureList(v: Value): (r: seq<Value>)
    ensures v.Null? <==> r == [] && !v.List?
    ensures !v.Null? && !v.List? ==> r == [v]
    ensures v.List? ==> r == v.items
  {
    match v
    case Null => []
    case List(items) => items
    case _ => [v]
  }

  /** The text a leaf element converts to: its stripped text when it has non-blank
      text, otherwise its raw text ("" when it has none). */
  function LeafText(text: Option<string>): string {
    if HasText(text) then Strip(text.value) else text.GetOr("")
  }

  /** `get_text` of a converted leaf (no attributes, no children) is its text,
      stripped when it is not blank. */
  lemma GetTextLeaf(e: Element)
    requires e.attrib == [] && e.children == []
    ensures GetText(RootToDict(e)) == Some(Str(LeafText(e.text)))
  {
    RootToDictKind(e);
    if HasText(e.text) {
      FieldsText(e);
    }
  }

  /** `get_text` of any converted element with non-blank text and no child named
      "text" is its stripped text. */
  lemma GetTextOfText(e: Element)
    requires HasText(e.text) && "text" !in ChildTags(e)
    ensures GetText(RootToDict(e)) == Some(Str(Strip(e.text.value)))
  {
    RootToDictKind(e);
    FieldsText(e);
  }

  /** An element with blank or no text, but with attributes or children (none named
      "text"), converts to a dictionary whose `get_text` is "". */
  lemma GetTextNoText(e: Element)
    requires !HasText(e.text) && (e.attrib != [] || e.children != []) && "text" !in ChildTags(e)
    ensures GetText(RootToDict(e)) == Some(Str(""))
  {
    RootToDictKind(e);
    FieldsKeys(e);
    AttribFieldsKeys(e.attrib);
    assert "text"[0] != '@';
    assert "text" !in Fields(e);
  }

  /** `ensure_list` undoes the collapsing of a run of same-tag children: it gives back
      the whole run, except that a run of one empty leaf (None) gives nothing. */
  lemma EnsureListCollapse(vs: seq<Value>)
    requires vs != [] && forall i | 0 <= i < |vs| :: !vs[i].List?
    ensures EnsureList(Collapse(vs)) == if |vs| == 1 && vs[0].Null? then [] else vs
  {
  }

  /** `ensure_list(d.get(tag))` on a converted element lists the converted children
      carrying `tag`, in document order (an only child that is an empty leaf aside);
      for a tag no child carries, nor text nor attribute, it gives the empty list. */
  lemma EnsureListChildren(e: Element, tag: string)
    ensures tag in ChildTags(e) ==>
      var vs := ChildrenTagged(e, tag);
      tag in Fields(e) && EnsureList(Fields(e)[tag]) == if |vs| == 1 && vs[0].Null? then [] else vs
    ensures tag !in ChildTags(e) && tag !in TextField(e.text) && tag !in AttribFields(e.attrib) ==>
      EnsureList(MapGet(Fields(e), tag, Null)) == []
  {
    if tag in ChildTags(e) {
      FieldsChild(e, tag);
      var vs := ChildrenTagged(e, tag);
      ChildEntries(e, tag);
      var ps := ChildPairs(e);
      TaggedNonEmpty(ps, tag);
      forall i | 0 <= i < |vs| ensures !vs[i].List? {
        assert vs[i] in Tagged(ps, tag);
      }
      EnsureListCollapse(vs);
    } else {
      FieldsKeys(e);
    }
  }
}
