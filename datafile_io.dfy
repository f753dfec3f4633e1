/** `DataFile::Write` and `DataFile::Read` as the loops they are, each proved against the
    functions of DataFileText. The file is the text written or the lines read; opening,
    closing and the stream itself are not modelled. */
module DataFileIO {

  import opened DataFiles
  import opened DataFileText
  import opened PyCore

  // ---------------------------------------------------------------------------------
  // writing

  /** `AddTabs`: one tab per level of depth. */
  method AddTabs(text: string, tabs: nat) returns (out: string)
    ensures out == text + Tabs(tabs)
  {
    out := text;
    var i := 0;
    while i < tabs
      invariant 0 <= i <= tabs
      invariant out == text + Tabs(i)
    {
      assert Tabs(i + 1) == Tabs(i) + "\t";
      out := out + "\t";
      i := i + 1;
    }
  }

  /** The loop printing a leaf's values: each value, then ";\n" after the last and ", "
      after the others. */
  method WriteValues(text: string, vs: seq<string>) returns (out: string)
    ensures out == text + ValuesText(vs)
  {
    out := text;
    var i := 0;
    while i < |vs|
      invariant 0 <= i <= |vs|
      invariant out + ValuesText(vs[i..]) == text + ValuesText(vs)
    {
      var sep := if i == |vs| - 1 then ";\n" else ", ";
      assert ValuesText(vs[i..]) == vs[i] + sep + ValuesText(vs[i + 1..]);
      Assoc(out, vs[i], sep);
      Assoc(out + vs[i], sep, ValuesText(vs[i + 1..]));
      Assoc(out, vs[i] + sep, ValuesText(vs[i + 1..]));
      out := out + vs[i] + sep;
      i := i + 1;
    }
    assert vs[i..] == [];
    assert out + ValuesText(vs[i..]) == out;
  }

  /** `Write`'s recursive lambda: every child of `n` in order, a leaf as its name and
      values, a node with children as its name, an opening brace, its own children one
      level deeper and a closing brace. */
  method WriteNode(text: string, n: Node, tabs: nat) returns (out: string)
    ensures out == text + ChildrenText(n, 0, tabs)
    decreases n
  {
    out := text;
    var i := 0;
    while i < |n.objects|
      invariant 0 <= i <= |n.objects|
      invariant out + ChildrenText(n, i, tabs) == text + ChildrenText(n, 0, tabs)
    {
      var (name, child) := n.objects[i];
      assert n.objects[i] in n.objects;
      ghost var before := out;
      out := AddTabs(out, tabs);
      if child.objects == [] {
        out := out + name + " = ";
        out := WriteValues(out, child.values);
        LeafText(before, tabs, name, ValuesText(child.values));
      } else {
        out := out + name + "\n";
        out := AddTabs(out, tabs);
        out := out + "{\n";
        out := WriteNode(out, child, tabs + 1);
        out := AddTabs(out, tabs);
        out := out + "}\n";
        InnerText(before, tabs, name, ChildrenText(child, 0, tabs + 1));
      }
      ChildTextStep(n, i, tabs);
      Assoc(before, ChildText(n, i, tabs), ChildrenText(n, i + 1, tabs));
      i := i + 1;
    }
    assert out + ChildrenText(n, i, tabs) == out;
  }

  /** The text of the i-th child alone. */
  ghost function ChildText(n: Node, i: nat, tabs: nat): string
    requires i < |n.objects|
  {
    var (name, child) := n.objects[i];
    assert n.objects[i] in n.objects;
    if child.objects == [] then Tabs(tabs) + name + " = " + ValuesText(child.values)
    else Line(Tabs(tabs) + name) + (Line(Tabs(tabs) + "{") + (ChildrenText(child, 0, tabs + 1) + Line(Tabs(tabs) + "}")))
  }

  lemma ChildTextStep(n: Node, i: nat, tabs: nat)
    requires i < |n.objects|
    ensures ChildrenText(n, i, tabs) == ChildText(n, i, tabs) + ChildrenText(n, i + 1, tabs)
  {
  }

  /** The pieces printed for a leaf, appended one after the other. */
  lemma LeafText(before: string, tabs: nat, name: string, values: string)
    ensures before + Tabs(tabs) + name + " = " + values == before + (Tabs(tabs) + name + " = " + values)
  {
  }

  /** The pieces printed for a node with children, appended one after the other. */
  lemma InnerText(before: string, tabs: nat, name: string, inner: string)
    ensures before + Tabs(tabs) + name + "\n" + Tabs(tabs) + "{\n" + inner + Tabs(tabs) + "}\n"
      == before + (Line(Tabs(tabs) + name) + (Line(Tabs(tabs) + "{") + (inner + Line(Tabs(tabs) + "}"))))
  {
  }

  /** `DataFile::Write`: the text of the whole tree. */
  method Write(df: DataFile) returns (text: string)
    ensures text == WriteText(df.Snapshot())
  {
    text := WriteNode("", df.Snapshot(), 0);
    assert "" + WriteText(df.Snapshot()) == WriteText(df.Snapshot());
  }

  // ---------------------------------------------------------------------------------
  // reading

  /** The character loop over a field's value: quotes, separators and the tokens stored
      at each ';', then the tokens left at the end. None where the source appends to the
      last token of an empty list. */
  method TokenizeValue(value: string) returns (r: Option<seq<seq<string>>>)
    ensures r == Tokenize(value)
  {
    var quotes := false;
    var tokens: seq<string> := [""];
    var flushes: seq<seq<string>> := [];
    var i := 0;
    while i < |value|
      invariant 0 <= i <= |value|
      invariant TokenizeFrom(Tokenizer(false, [""], []), value)
        == TokenizeFrom(Tokenizer(quotes, tokens, flushes), value[i..])
    {
      var c := value[i];
      assert value[i..][0] == c && value[i..][1..] == value[i + 1..];
      if c == '"' {
        quotes := !quotes;
      } else if !quotes && c == ';' {
        flushes := flushes + [tokens];
        tokens := [];
      } else if !quotes && c == ',' {
        tokens := tokens + [""];
      } else {
        if tokens == [] {
          assert TokenStep(Tokenizer(quotes, tokens, flushes), c).None?;
          return None;
        }
        tokens := tokens[..|tokens| - 1] + [tokens[|tokens| - 1] + [c]];
      }
      i := i + 1;
    }
    assert value[i..] == [];
    if tokens != [] {
      flushes := flushes + [tokens];
    } else {
      assert flushes + [] == flushes;
    }
    r := Some(flushes);
  }

  /** The loop storing one token list: token k, trimmed, at index k of the child `name`. */
  method StoreTokens(n: Node, name: string, tokens: seq<string>) returns (m: Node)
    ensures m == StoreFrom(n, name, tokens, 0)
  {
    m := n;
    var k := 0;
    while k < |tokens|
      invariant 0 <= k <= |tokens|
      invariant StoreFrom(m, name, tokens, k) == StoreFrom(n, name, tokens, 0)
    {
      m := SetChild(m, name, Trim(tokens[k]), k);
      k := k + 1;
    }
  }

  /** Every token list of a value stored in turn. */
  method StoreValue(n: Node, name: string, flushes: seq<seq<string>>) returns (m: Node)
    ensures m == StoreAll(n, name, flushes)
  {
    m := n;
    var i := 0;
    while i < |flushes|
      invariant 0 <= i <= |flushes|
      invariant StoreAll(m, name, flushes[i..]) == StoreAll(n, name, flushes)
    {
      assert flushes[i..][0] == flushes[i] && flushes[i..][1..] == flushes[i + 1..];
      m := StoreTokens(m, name, flushes[i]);
      i := i + 1;
    }
  }

  /** The body of `Read`'s loop for one line. */
  method ReadOneLine(r: Reader, raw: string) returns (res: Option<Reader>)
    ensures res == ReadLine(r, raw)
  {
    var line := Trim(raw);
    if line == [] {
      return Some(r);
    }
    var i := FirstEquals(line);
    if i != -1 {
      var name := Trim(line[..i]);
      var value := Trim(line[i + 1..]);
      if r.closed {
        return None;
      }
      var tokens := TokenizeValue(value);
      if tokens.None? {
        return None;
      }
      var cur := StoreValue(r.cur, name, tokens.value);
      return Some(r.(cur := cur, field := name));
    } else if line[0] == '{' {
      if r.closed {
        return None;
      }
      var (m, p) := SelectChild(r.cur, r.field);
      return Some(r.(path := r.path + [(m, p)], cur := m.objects[p].1));
    } else if line[|line| - 1] == '}' {
      if r.closed {
        return None;
      }
      if r.path == [] {
        return Some(r.(closed := true));
      }
      var (parent, p) := r.path[|r.path| - 1];
      return Some(r.(path := r.path[..|r.path| - 1], cur := Reattach(parent, p, r.cur)));
    }
    return Some(r.(field := line));
  }

  /** `DataFile::Read` of the lines of a file into `df`: every line in order, then the
      children map rebuilt from the children read. The result is false exactly where the
      source's behaviour is undefined; otherwise `df` holds the tree `ReadTree` gives and
      its invariant still holds. */
  method Read(df: DataFile, lines: seq<string>) returns (defined: bool)
    requires df.Valid()
    modifies df
    ensures df.Valid()
    ensures defined == ReadTree(old(df.Snapshot()), lines).Some?
    ensures defined ==> df.Snapshot() == ReadTree(old(df.Snapshot()), lines).value
  {
    var r := Reader([], df.Snapshot(), "", false);
    ghost var r0 := r;
    var i := 0;
    while i < |lines|
      invariant 0 <= i <= |lines|
      invariant ReadLines(r0, lines) == ReadLines(r, lines[i..])
      invariant TopDistinct(r) && unchanged(df)
    {
      assert lines[i..][0] == lines[i] && lines[i..][1..] == lines[i + 1..];
      var next := ReadOneLine(r, lines[i]);
      if next.None? {
        return false;
      }
      ReadLineDistinct(r, lines[i]);
      r := next.value;
      i := i + 1;
    }
    assert lines[i..] == [];
    var tree := Zip(r.path, r.cur);
    ZipNames(r.path, r.cur);
    Install(df, tree);
    defined := true;
  }

  /** The object `Read` filled: the tree's values and children, and the children map
      that the calls to `operator[]` built along the way. */
  method Install(df: DataFile, tree: Node)
    requires Distinct(Names(tree.objects))
    modifies df
    ensures df.Valid() && df.Snapshot() == tree
  {
    df.values := tree.values;
    df.objects := tree.objects;
    df.index := Index(tree.objects);
    df.Keys := set j | 0 <= j < |tree.objects| :: tree.objects[j].0;
  }

  /** The children map: each name to its position. */
  method Index(objs: seq<(string, Node)>) returns (index: map<string, nat>)
    requires Distinct(Names(objs))
    ensures forall k :: k in index <==> k in Names(objs)
    ensures forall k :: k in index ==> index[k] < |objs| && objs[index[k]].0 == k
  {
    index := map[];
    var j := 0;
    while j < |objs|
      invariant 0 <= j <= |objs|
      invariant forall k :: k in index <==> k in Names(objs)[..j]
      invariant forall k :: k in index ==> index[k] < j && objs[index[k]].0 == k
    {
      assert Names(objs)[..j + 1] == Names(objs)[..j] + [objs[j].0];
      index := index[objs[j].0 := j];
      j := j + 1;
    }
    assert Names(objs)[..j] == Names(objs);
  }

  // ---------------------------------------------------------------------------------
  // the children of the top node stay distinct

  /** The node at the bottom of the stack: the one `Read` was called on. */
  function Top(r: Reader): Node {
    if r.path == [] then r.cur else r.path[0].0
  }

  predicate TopDistinct(r: Reader) {
    Distinct(Names(Top(r).objects))
  }

  lemma ReattachNames(parent: Node, p: nat, child: Node)
    ensures Names(Reattach(parent, p, child).objects) == Names(parent.objects)
  {
  }

  /** Putting the stack back together keeps the names of the bottom node's children. */
  lemma {:induction false} ZipNames(path: seq<(Node, nat)>, cur: Node)
    ensures Names(Zip(path, cur).objects) == Names((if path == [] then cur else path[0].0).objects)
    decreases |path|
  {
    if path != [] {
      var k := |path| - 1;
      var c := Reattach(path[k].0, path[k].1, cur);
      ReattachNames(path[k].0, path[k].1, cur);
      ZipNames(path[..k], c);
    }
  }

  lemma SetChildDistinct(n: Node, name: string, s: string, idx: nat)
    requires Distinct(Names(n.objects))
    ensures Distinct(Names(SetChild(n, name, s, idx).objects))
  {
    SelectSpec(n, name);
    var (m, p) := SelectChild(n, name);
    assert Names(SetChild(n, name, s, idx).objects) == Names(m.objects);
  }

  lemma {:induction false} StoreFromDistinct(n: Node, name: string, tokens: seq<string>, k: nat)
    requires k <= |tokens| && Distinct(Names(n.objects))
    ensures Distinct(Names(StoreFrom(n, name, tokens, k).objects))
    decreases |tokens| - k
  {
    if k < |tokens| {
      SetChildDistinct(n, name, Trim(tokens[k]), k);
      StoreFromDistinct(SetChild(n, name, Trim(tokens[k]), k), name, tokens, k + 1);
    }
  }

  lemma {:induction false} StoreAllDistinct(n: Node, name: string, flushes: seq<seq<string>>)
    requires Distinct(Names(n.objects))
    ensures Distinct(Names(StoreAll(n, name, flushes).objects))
    decreases |flushes|
  {
    if flushes != [] {
      StoreFromDistinct(n, name, flushes[0], 0);
      StoreAllDistinct(StoreFrom(n, name, flushes[0], 0), name, flushes[1..]);
    }
  }

  /** A line read keeps the children of the bottom node distinct. */
  lemma ReadLineDistinct(r: Reader, raw: string)
    requires TopDistinct(r) && ReadLine(r, raw).Some?
    ensures TopDistinct(ReadLine(r, raw).value)
  {
    var line := Trim(raw);
    if line != [] {
      var i := FirstEquals(line);
      if i != -1 && r.path == [] {
        var fl := Tokenize(Trim(line[i + 1..])).value;
        StoreAllDistinct(r.cur, Trim(line[..i]), fl);
      } else if i == -1 && line[0] == '{' {
        SelectSpec(r.cur, r.field);
      } else if i == -1 && line[|line| - 1] == '}' && r.path != [] {
        var k := |r.path| - 1;
        ReattachNames(r.path[k].0, r.path[k].1, r.cur);
      }
    }
  }
}
