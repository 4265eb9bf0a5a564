/**
  The editing operations of NBTEditor: setValueFromString, the kind gate and
  parse-failure handling of editValue, addTag and deleteTag.

  The editor state is the tree, the selected row of the flattened list
  (selectedTag is flatTagList[currentRow]; no selection is a null
  selectedTag) and the modified flag.  The terminal line read by
  mvgetnstr is a parameter, and so are std::stof and std::stod.
 */
module Editor {
  import opened Wrappers
  import opened Binary
  import opened Decimal
  import opened Tags
  import opened Tree

  // ------------------------------------------------------------ setValueFromString

  /** std::stof and std::stod: the bit pattern a text denotes, or None when they throw. */
  datatype FloatSyntax = FloatSyntax(stof: string -> Option<float32>, stod: string -> Option<float64>)

  /** The value record with the field a kind's edit writes reset to zero. */
  function Clear(kind: TagType, v: Value): Value
  {
    match kind
    case Byte => v.(byteVal := 0)
    case Short => v.(shortVal := 0)
    case Int => v.(intVal := 0)
    case Long => v.(longVal := 0)
    case Float => v.(floatVal := 0)
    case Double => v.(doubleVal := 0)
    case String => v.(stringVal := "")
    case _ => v
  }

  /** Whether the parse setValueFromString performs for this kind throws on s. */
  predicate ParseFails(kind: TagType, s: string, fs: FloatSyntax)
  {
    match kind
    case Byte => StoI(s).None?
    case Short => StoI(s).None?
    case Int => StoI(s).None?
    case Long => StoLL(s).None?
    case Float => fs.stof(s).None?
    case Double => fs.stod(s).None?
    case _ => false
  }

  /**
    setValueFromString: parse s for the tag's kind and store it in that
    kind's field.  A byte or short takes the int std::stoi yields
    converted to the narrow type (wrapped, not rejected); a string takes s
    verbatim; every other kind is left as it is.  None is the exception
    std::stoi, std::stoll, std::stof or std::stod throws, in which case the
    tag is not touched.
   */
  function SetValueFromString(t: Tag, s: cstring, fs: FloatSyntax): (r: Option<Tag>)
    ensures r.None? <==> ParseFails(t.kind, s, fs)
    ensures r.Some? ==> r.value.kind == t.kind && r.value.name == t.name
    ensures r.Some? ==> Clear(t.kind, r.value.value) == Clear(t.kind, t.value)
    ensures r.Some? && t.kind == Byte ==>
      var p := ParseInteger(s).value;
      (p - r.value.value.byteVal) % 0x100 == 0 && (-0x80 <= p < 0x80 ==> r.value.value.byteVal == p)
    ensures r.Some? && t.kind == Short ==>
      var p := ParseInteger(s).value;
      (p - r.value.value.shortVal) % 0x1_0000 == 0 && (-0x8000 <= p < 0x8000 ==> r.value.value.shortVal == p)
    ensures r.Some? && t.kind == Int ==> r.value.value.intVal == ParseInteger(s).value
    ensures r.Some? && t.kind == Long ==> r.value.value.longVal == ParseInteger(s).value
    ensures r.Some? && t.kind == String ==> r.value.value.stringVal == s
    ensures r.Some? && t.kind == Float ==> Some(r.value.value.floatVal) == fs.stof(s)
    ensures r.Some? && t.kind == Double ==> Some(r.value.value.doubleVal) == fs.stod(s)
    ensures t.kind !in {Byte, Short, Int, Long, Float, Double, String} ==> r == Some(t)
  {
    Pow256Values();
    var v := t.value;
    match t.kind
    case Byte =>
      (match StoI(s)
       case None => None
       case Some(x) => Some(t.(value := v.(byteVal := Wrap(x, 1)))))
    case Short =>
      (match StoI(s)
       case None => None
       case Some(x) => Some(t.(value := v.(shortVal := Wrap(x, 2)))))
    case Int =>
      (match StoI(s)
       case None => None
       case Some(x) => Some(t.(value := v.(intVal := x))))
    case Long =>
      (match StoLL(s)
       case None => None
       case Some(x) => Some(t.(value := v.(longVal := x))))
    case Float =>
      (match fs.stof(s)
       case None => None
       case Some(x) => Some(t.(value := v.(floatVal := x))))
    case Double =>
      (match fs.stod(s)
       case None => None
       case Some(x) => Some(t.(value := v.(doubleVal := x))))
    case String => Some(t.(value := v.(stringVal := s)))
    case _ => Some(t)
  }

  /** The integer a tag of an integer kind holds, as NBTValue::toString prints it. */
  function IntegerField(t: Tag): int
    requires t.kind in {Byte, Short, Int, Long}
  {
    match t.kind
    case Byte => t.value.byteVal
    case Short => t.value.shortVal
    case Int => t.value.intVal
    case _ => t.value.longVal
  }

  /**
    Typing back the decimal text toString shows for an integer tag (without
    the L of a long, which editValue strips) leaves the tag as it was.
   */
  lemma RetypeDisplayedInteger(t: Tag, fs: FloatSyntax)
    requires t.kind in {Byte, Short, Int, Long}
    ensures SetValueFromString(t, DecimalString(IntegerField(t)), fs) == Some(t)
  {
    ParseDecimalString(IntegerField(t), "");
    assert DecimalString(IntegerField(t)) + "" == DecimalString(IntegerField(t));
    Pow256Values();
  }

  /** Digits followed by other text: std::stoi stops at the first non-digit. */
  lemma TrailingTextIgnored(t: Tag, v: int32, tail: cstring, fs: FloatSyntax)
    requires t.kind == Int
    requires tail == [] || !IsDigit(tail[0])
    ensures SetValueFromString(t, DecimalString(v) + tail, fs) == Some(t.(value := t.value.(intVal := v)))
  {
    ParseDecimalString(v, tail);
  }

  /** A byte typed as 300 is stored as 44: the conversion wraps modulo 256. */
  lemma ByteWrapsAround(t: Tag, fs: FloatSyntax)
    requires t.kind == Byte
    ensures SetValueFromString(t, "300", fs) == Some(t.(value := t.value.(byteVal := 44)))
  {
    assert NatDigits(3) == "3";
    assert NatDigits(30) == "30";
    assert DecimalString(300) + "" == "300";
    ParseDecimalString(300, "");
    Pow256Values();
  }

  /** A short typed as 40000 is stored as -25536: the conversion wraps modulo 65536. */
  lemma ShortWrapsAround(t: Tag, fs: FloatSyntax)
    requires t.kind == Short
    ensures SetValueFromString(t, "40000", fs) == Some(t.(value := t.value.(shortVal := -25536)))
  {
    assert NatDigits(4) == "4";
    assert NatDigits(40) == "40";
    assert NatDigits(400) == "400";
    assert NatDigits(4000) == "4000";
    assert DecimalString(40000) + "" == "40000";
    ParseDecimalString(40000, "");
    Pow256Values();
  }

  /** An int typed past its range makes std::stoi throw, and the tag keeps its value. */
  lemma IntOutOfRangeFails(t: Tag, v: int, fs: FloatSyntax)
    requires t.kind == Int && !(-0x8000_0000 <= v < 0x8000_0000)
    ensures SetValueFromString(t, DecimalString(v), fs) == None
  {
    ParseDecimalString(v, "");
    assert DecimalString(v) + "" == DecimalString(v);
  }

  // ------------------------------------------------------------ the editor state

  /** NBTEditor's state that the editing operations read and write. */
  datatype Editor = Editor(root: Option<Tag>, selected: Option<nat>, modified: bool)

  /**
    The state the editor keeps: a selection is a row of the flattened tree,
    and every compound in the tree keeps its map order.
   */
  predicate Wf(ed: Editor)
  {
    && (ed.root.Some? ==> Valid(ed.root.value))
    && (ed.selected.Some? ==> ed.root.Some? && ed.selected.value < Size(ed.root.value))
  }

  /** selectedTag: the node at the selected row. */
  function Selected(ed: Editor): (r: Option<Tag>)
    requires Wf(ed)
    ensures r.Some? <==> ed.selected.Some?
    ensures r.Some? ==> ed.selected.value < |FlattenRoot(ed.root)|
    ensures r.Some? ==> r.value == FlattenRoot(ed.root)[ed.selected.value]
    ensures r.Some? ==> Valid(r.value)
  {
    match ed.selected
    case None => None
    case Some(i) =>
      NodeAtIsRow(ed.root.value, i);
      NodeAtValid(ed.root.value, i);
      Some(NodeAt(ed.root.value, i))
  }

  // ------------------------------------------------------------ editValue

  /** The kinds editValue lets the user edit. */
  predicate Editable(kind: TagType)
  {
    kind in {Byte, Short, Int, Long, Float, Double, String}
  }

  /** The size of editValue's input buffer: 256 bytes, one kept for the terminator. */
  const InputLimit: nat := 255

  /**
    The std::string editValue builds from the input buffer: mvgetnstr
    stores at most 255 bytes, and the string ends at the first NUL.  It
    stops short of both limits only at a NUL.
   */
  function Entered(line: cstring): (r: cstring)
    ensures |r| <= InputLimit && r <= line
    ensures '\0' !in r
    ensures |r| < |line| && |r| < InputLimit ==> line[|r|] == '\0'
    ensures |line| <= InputLimit && '\0' !in line ==> r == line
  {
    var s := if |line| <= InputLimit then line else line[..InputLimit];
    s[..UntilNul(s)]
  }

  /** The index of the first NUL in s, or |s| when there is none. */
  function UntilNul(s: string): (k: nat)
    ensures k <= |s| && '\0' !in s[..k]
    ensures k < |s| ==> s[k] == '\0'
  {
    if s == [] || s[0] == '\0' then 0
    else
      var k := 1 + UntilNul(s[1..]);
      assert s[..k] == [s[0]] + s[1..][..k - 1];
      k
  }

  /**
    editValue.  line is what mvgetnstr returned: None when it did not
    return OK.  Nothing changes without a selection, for a kind that cannot
    be edited, without a line, or when the parse throws; otherwise the
    selected node takes the parsed value and the tree is marked modified.
   */
  function EditValue(ed: Editor, line: Option<cstring>, fs: FloatSyntax): (r: Editor)
    requires Wf(ed)
    ensures Wf(r) && r.selected == ed.selected
    ensures r != ed ==> r.modified
    ensures ed.selected.None? ==> r == ed
    ensures ed.selected.Some? && !Editable(Selected(ed).value.kind) ==> r == ed
    ensures line.None? ==> r == ed
    ensures (ed.selected.Some? && line.Some?
      && ParseFails(Selected(ed).value.kind, Entered(line.value), fs)) ==> r == ed
    ensures (ed.selected.Some? && line.Some? && Editable(Selected(ed).value.kind)
      && !ParseFails(Selected(ed).value.kind, Entered(line.value), fs)) ==>
        && r.modified
        && Selected(r) == SetValueFromString(Selected(ed).value, Entered(line.value), fs)
  {
    match ed.selected
    case None => ed
    case Some(i) =>
      var root := ed.root.value;
      var t := NodeAt(root, i);
      if !Editable(t.kind) || line.None? then ed
      else
        match SetValueFromString(t, Entered(line.value), fs)
        case None => ed
        case Some(n) =>
          EditKeepsShape(root, i, n);
          ed.(root := Some(UpdateAt(root, i, n)), modified := true)
  }

  /** Writing a scalar field of a node keeps the tree's shape and its validity. */
  lemma EditKeepsShape(root: Tag, i: nat, n: Tag)
    requires i < Size(root) && Valid(root)
    requires n.kind == NodeAt(root, i).kind
    requires n.value.listVal == NodeAt(root, i).value.listVal
    requires n.value.compoundVal == NodeAt(root, i).value.compoundVal
    ensures Size(UpdateAt(root, i, n)) == Size(root) && Valid(UpdateAt(root, i, n))
    ensures NodeAt(UpdateAt(root, i, n), i) == n
  {
    var prev := NodeAt(root, i);
    NodeAtValid(root, i);
    assert Children(n) == Children(prev);
    ChildrenSize(n);
    ChildrenSize(prev);
    assert Valid(n) <==> Valid(prev);
    UpdateAtValid(root, i, n);
    UpdateKeepingChildren(root, i, n);
    FlattenLength(UpdateAt(root, i, n));
    NodeAtIsRow(UpdateAt(root, i, n), i);
  }

  /**
    A successful edit touches the selected row only: the list of rows keeps
    its length and every other row keeps its head.
   */
  lemma EditValueRows(ed: Editor, line: Option<cstring>, fs: FloatSyntax)
    requires Wf(ed) && ed.selected.Some?
    ensures var r := EditValue(ed, line, fs);
      var f, g := FlattenRoot(ed.root), FlattenRoot(r.root);
      && |g| == |f|
      && forall j :: 0 <= j < |g| && j != ed.selected.value ==> SameHead(g[j], f[j])
  {
    var r := EditValue(ed, line, fs);
    var root, i := ed.root.value, ed.selected.value;
    if r == ed {
      FlattenLength(root);
    } else {
      var n := SetValueFromString(NodeAt(root, i), Entered(line.value), fs).value;
      assert Children(n) == Children(NodeAt(root, i));
      UpdateKeepingChildren(root, i, n);
    }
  }

  // ------------------------------------------------------------ addTag

  /** The key and name addTag gives the child it creates. */
  const NewTagName: cstring := "new_tag"

  /** The child addTag creates: a string tag named new_tag holding "value". */
  const FreshChild: Tag :=
    var t := NewTag(String, NewTagName);
    t.(value := t.value.(stringVal := "value"))

  /**
    The compound after compoundVal["new_tag"] = newTag: FreshChild is stored
    under new_tag, replacing what was there, every other key keeps its
    child, and nothing else about the compound changes.
   */
  function WithFreshChild(t: Tag): (n: Tag)
    requires t.kind == Compound && Valid(t)
    ensures Valid(n)
    ensures n == t.(value := t.value.(compoundVal := n.value.compoundVal))
    ensures Lookup(n.value.compoundVal, NewTagName) == Some(FreshChild)
    ensures Keys(n.value.compoundVal) == Keys(t.value.compoundVal) + {NewTagName}
    ensures forall k :: k != NewTagName ==> Lookup(n.value.compoundVal, k) == Lookup(t.value.compoundVal, k)
    ensures |n.value.compoundVal| == |t.value.compoundVal| + (if NewTagName in Keys(t.value.compoundVal) then 0 else 1)
  {
    var n := t.(value := t.value.(compoundVal := Put(t.value.compoundVal, NewTagName, FreshChild)));
    EntriesValid(t, n);
    AllValidOfEntries(n.value.compoundVal);
    ChildrenSize(n);
    n
  }

  /**
    addTag: a selected compound gets FreshChild stored under the key
    new_tag and the tree is marked modified; the selection stays on the
    same row.  Anything else is left as it is.
   */
  function AddTag(ed: Editor): (r: Editor)
    requires Wf(ed)
    ensures Wf(r) && r.selected == ed.selected
    ensures ed.selected.None? || Selected(ed).value.kind != Compound ==> r == ed
    ensures ed.selected.Some? && Selected(ed).value.kind == Compound ==>
      r.modified && Selected(r) == Some(WithFreshChild(Selected(ed).value))
  {
    match ed.selected
    case None => ed
    case Some(i) =>
      var root := ed.root.value;
      var t := NodeAt(root, i);
      if t.kind != Compound then ed
      else
        NodeAtValid(root, i);
        var n := WithFreshChild(t);
        AddKeepsShape(root, i, n);
        ed.(root := Some(UpdateAt(root, i, n)), modified := true)
  }

  /** Storing a child in a selected compound keeps the tree valid and the compound at its row. */
  lemma AddKeepsShape(root: Tag, i: nat, n: Tag)
    requires i < Size(root) && Valid(root)
    requires Valid(n)
    ensures i < Size(UpdateAt(root, i, n)) && Valid(UpdateAt(root, i, n))
    ensures NodeAt(UpdateAt(root, i, n), i) == n
  {
    UpdateAtValid(root, i, n);
    UpdateAtRows(root, i, n);
    FlattenLength(n);
    NodeAtIsRow(UpdateAt(root, i, n), i);
  }

  /** A compound's children are valid when each entry's tag is. */
  lemma AllValidOfEntries(es: seq<Entry>)
    requires forall k :: 0 <= k < |es| ==> Valid(es[k].tag)
    ensures AllValid(TagsOf(es))
  {
    AllValidIndex(TagsOf(es));
  }

  /** Storing FreshChild in a valid compound leaves every entry valid. */
  lemma EntriesValid(t: Tag, n: Tag)
    requires t.kind == Compound && Valid(t)
    requires n == t.(value := t.value.(compoundVal := Put(t.value.compoundVal, NewTagName, FreshChild)))
    ensures forall k :: 0 <= k < |n.value.compoundVal| ==> Valid(n.value.compoundVal[k].tag)
  {
    var es := t.value.compoundVal;
    ChildrenSize(t);
    AllValidIndex(TagsOf(es));
    FreshChildValid();
    PutValid(es, NewTagName, FreshChild);
  }

  /** The tag addTag stores is a valid tree on its own. */
  lemma FreshChildValid()
    ensures Valid(FreshChild)
  {
    ChildrenSize(FreshChild);
  }

  /** Put of a valid tag into entries whose tags are valid keeps every tag valid. */
  lemma PutValid(es: seq<Entry>, k: cstring, c: Tag)
    requires Sorted(es) && AllValid(TagsOf(es)) && Valid(c)
    ensures forall j :: 0 <= j < |Put(es, k, c)| ==> Valid(Put(es, k, c)[j].tag)
  {
    var ps := Put(es, k, c);
    AllValidIndex(TagsOf(es));
    PutEntries(es, k, c);
    forall j | 0 <= j < |ps| ensures Valid(ps[j].tag) {
      assert ps[j] in ps;
      if ps[j] != Entry(k, c) {
        var i :| 0 <= i < |es| && es[i] == ps[j];
        assert TagsOf(es)[i] == ps[j].tag;
      }
    }
  }

  /**
    The rows after addTag: those before the selected row keep their heads,
    the compound's subtree is replaced by the new compound's, and the rows
    after it are untouched.
   */
  lemma AddTagRows(ed: Editor)
    requires Wf(ed) && ed.selected.Some? && Selected(ed).value.kind == Compound
    ensures var root, i := ed.root.value, ed.selected.value;
      Replaced(FlattenRoot(AddTag(ed).root), Flatten(root), i, Size(NodeAt(root, i)),
               Flatten(WithFreshChild(Selected(ed).value)))
  {
    var root, i := ed.root.value, ed.selected.value;
    AddTagRoot(ed);
    RowsAfterUpdate(root, i, WithFreshChild(Selected(ed).value), FlattenRoot(AddTag(ed).root));
  }

  /** UpdateAtRows, stated for rows g already known to be the updated tree's. */
  lemma RowsAfterUpdate(root: Tag, i: nat, n: Tag, g: seq<Tag>)
    requires i < Size(root) && g == Flatten(UpdateAt(root, i, n))
    ensures Replaced(g, Flatten(root), i, Size(NodeAt(root, i)), Flatten(n))
  {
    UpdateAtRows(root, i, n);
    FlattenLength(n);
  }

  /** addTag on a selected compound replaces the node at the selected row. */
  lemma AddTagRoot(ed: Editor)
    requires Wf(ed) && ed.selected.Some? && Selected(ed).value.kind == Compound
    ensures NodeAt(ed.root.value, ed.selected.value) == Selected(ed).value
    ensures FlattenRoot(AddTag(ed).root) == Flatten(UpdateAt(ed.root.value, ed.selected.value, WithFreshChild(Selected(ed).value)))
  {
    NodeAtIsRow(ed.root.value, ed.selected.value);
  }

  // ------------------------------------------------------------ deleteTag

  /** The mark deleteTag puts in front of a tag's name. */
  const DeletedMark: cstring := "[DELETED] "

  /**
    deleteTag: a selected tag that is not the root is marked by prefixing
    its name; it stays in the tree with its value and children, and the tree
    is marked modified.
   */
  function DeleteTag(ed: Editor): (r: Editor)
    requires Wf(ed)
    ensures Wf(r) && r.selected == ed.selected
    ensures ed.selected.None? || ed.selected.value == 0 ==> r == ed
    ensures ed.selected.Some? && ed.selected.value != 0 ==>
      var t, u := Selected(ed).value, Selected(r).value;
      && r.modified
      && u.name == DeletedMark + t.name
      && u.kind == t.kind && u.value == t.value
  {
    match ed.selected
    case None => ed
    case Some(i) =>
      if i == 0 then ed
      else
        var root := ed.root.value;
        var t := NodeAt(root, i);
        var n := t.(name := DeletedMark + t.name);
        EditKeepsShape(root, i, n);
        ed.(root := Some(UpdateAt(root, i, n)), modified := true)
  }

  /**
    deleteTag removes nothing: the flattened list keeps its length and every
    row other than the selected one keeps its head.
   */
  lemma DeleteTagRows(ed: Editor)
    requires Wf(ed) && ed.selected.Some?
    ensures var r := DeleteTag(ed);
      var f, g := FlattenRoot(ed.root), FlattenRoot(r.root);
      && |g| == |f|
      && forall j :: 0 <= j < |g| && j != ed.selected.value ==> SameHead(g[j], f[j])
  {
    var root, i := ed.root.value, ed.selected.value;
    if i == 0 {
      FlattenLength(root);
    } else {
      var t := NodeAt(root, i);
      UpdateKeepingChildren(root, i, t.(name := DeletedMark + t.name));
    }
  }
}
