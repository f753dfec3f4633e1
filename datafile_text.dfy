/** The text form of a DataFile tree (DataFile.hpp, `Write` and `Read`): `Write` prints
    each child on its own line, a leaf as `name = v0, v1;` and a node with children as its
    name, `{`, its children one tab deeper and `}`; `Read` goes through the lines with a
    stack of the nodes it is inside. The file is replaced by the text written and by the
    lines `std::getline` returns. */
module DataFileText {

  import opened DataFiles
  import opened PyCore

  // ---------------------------------------------------------------------------------
  // writing

  function Tabs(n: nat): (r: string)
    ensures |r| == n && forall i :: 0 <= i < n ==> r[i] == '\t'
  {
    seq(n, _ => '\t')
  }

  /** The values of a leaf as `Write` prints them: each followed by ", ", the last by ";\n". */
  function ValuesText(vs: seq<string>): string
    decreases |vs|
  {
    if vs == [] then ""
    else vs[0] + (if |vs| == 1 then ";\n" else ", ") + ValuesText(vs[1..])
  }

  /** The text `Write` prints for the children of `n` from the i-th on, at depth `tabs`. */
  function ChildrenText(n: Node, i: nat, tabs: nat): string
    requires i <= |n.objects|
    decreases n, |n.objects| - i
  {
    if i == |n.objects| then ""
    else
      var (name, child) := n.objects[i];
      assert n.objects[i] in n.objects;
      (if child.objects == [] then Tabs(tabs) + name + " = " + ValuesText(child.values)
       else Line(Tabs(tabs) + name)
            + (Line(Tabs(tabs) + "{") + (ChildrenText(child, 0, tabs + 1) + Line(Tabs(tabs) + "}"))))
      + ChildrenText(n, i + 1, tabs)
  }

  /** A line of text and the newline ending it. */
  function Line(s: string): string {
    s + "\n"
  }

  /** What `Write` puts in the file: the children of the root; the root's own values are
      not written, so the file is empty exactly when the root has no children. */
  function WriteText(root: Node): (r: string)
    ensures r == [] <==> root.objects == []
  {
    ChildrenText(root, 0, 0)
  }

  // ---------------------------------------------------------------------------------
  // lines

  /** The position of the first newline, or the length when there is none. */
  function NewlineAt(s: string): (k: nat)
    ensures k <= |s| && (k < |s| ==> s[k] == '\n')
    ensures forall j :: 0 <= j < k ==> s[j] != '\n'
    decreases |s|
  {
    if s == [] then 0 else if s[0] == '\n' then 0 else 1 + NewlineAt(s[1..])
  }

  /** The lines `std::getline` returns until end of file: the pieces between newlines,
      the last one possibly empty. */
  function Lines(text: string): (r: seq<string>)
    ensures r != []
    decreases |text|
  {
    var k := NewlineAt(text);
    if k == |text| then [text] else [text[..k]] + Lines(text[k + 1..])
  }

  /** A line without a newline, followed by one, is the first line. */
  lemma LinesCons(l: string, rest: string)
    requires forall j :: 0 <= j < |l| ==> l[j] != '\n'
    ensures Lines(Line(l) + rest) == [l] + Lines(rest)
  {
    var s := l + "\n" + rest;
    assert s == l + ("\n" + rest);
    assert NewlineAt(s) == |l| by {
      NewlineAtPrefix(l, "\n" + rest);
    }
    assert s[..|l|] == l && s[|l| + 1..] == rest;
  }

  lemma {:induction false} NewlineAtPrefix(l: string, rest: string)
    requires forall j :: 0 <= j < |l| ==> l[j] != '\n'
    requires rest != [] && rest[0] == '\n'
    ensures NewlineAt(l + rest) == |l|
    decreases |l|
  {
    if l != [] {
      assert (l + rest)[1..] == l[1..] + rest;
      NewlineAtPrefix(l[1..], rest);
    }
  }

  lemma Assoc(a: string, b: string, c: string)
    ensures a + b + c == a + (b + c)
  {
  }

  // ---------------------------------------------------------------------------------
  // trimming

  function TrimRight(s: string): (r: string)
    ensures r == [] || !IsCSpace(r[|r| - 1])
    decreases |s|
  {
    if s != [] && IsCSpace(s[|s| - 1]) then TrimRight(s[..|s| - 1]) else s
  }

  /** The reader's `Trim`: whitespace removed from both ends. */
  function Trim(s: string): string {
    TrimRight(SkipSpaces(s))
  }

  /** A string that does not start or end with whitespace. */
  predicate Trimmed(s: string) {
    s == [] || (!IsCSpace(s[0]) && !IsCSpace(s[|s| - 1]))
  }

  lemma {:induction false} SkipSpacesTabs(n: nat, s: string)
    requires s == [] || !IsCSpace(s[0])
    ensures SkipSpaces(Tabs(n) + s) == s
    decreases n
  {
    if n > 0 {
      assert (Tabs(n) + s)[1..] == Tabs(n - 1) + s;
      SkipSpacesTabs(n - 1, s);
    } else {
      assert Tabs(n) + s == s;
    }
  }

  /** Trimming `pre` + s + `post` with s trimmed and not empty, and `pre`, `post` all
      whitespace, gives s. */
  lemma TrimAround(n: nat, s: string)
    requires s != [] && Trimmed(s)
    ensures Trim(Tabs(n) + s) == s
    ensures Trim(" " + s) == s
    ensures Trim(s + " ") == s
  {
    assert Trim(Tabs(n) + s) == s by {
      SkipSpacesTabs(n, s);
    }
    assert Trim(" " + s) == s by {
      TrimSpaceBefore(s);
    }
    assert Trim(s + " ") == s by {
      TrimSpaceAfter(s);
    }
  }

  lemma TrimSpaceBefore(s: string)
    requires s != [] && Trimmed(s)
    ensures Trim(" " + s) == s
  {
    var t := " " + s;
    assert SkipSpaces(t) == s by {
      assert t[0] == ' ' && t[1..] == s;
      assert SkipSpaces(s) == s;
    }
    assert TrimRight(s) == s;
  }

  lemma TrimSpaceAfter(s: string)
    requires s != [] && Trimmed(s)
    ensures Trim(s + " ") == s
  {
    var t := s + " ";
    assert SkipSpaces(t) == t by {
      assert t[0] == s[0];
    }
    assert TrimRight(t) == s by {
      assert t[|t| - 1] == ' ' && t[..|t| - 1] == s;
      assert TrimRight(s) == s;
    }
  }

  lemma TrimOfTrimmed(s: string)
    requires Trimmed(s)
    ensures Trim(s) == s
  {
  }

  // ---------------------------------------------------------------------------------
  // splitting a value into tokens

  /** The state of the token loop of `Read`: inside quotes or not, the tokens being
      collected, and the token lists already stored (at each ';'). */
  datatype Tokenizer = Tokenizer(quotes: bool, tokens: seq<string>, flushes: seq<seq<string>>)

  /** One character of the value: a quote toggles quoting, inside quotes every character is
      added to the last token, outside ';' stores the tokens and clears them, ',' starts a
      new token, and anything else is added to the last token. Adding to a token after a
      ';' has cleared them is undefined in the source (`back()` of an empty vector): None. */
  function TokenStep(t: Tokenizer, c: char): Option<Tokenizer> {
    if c == '"' then Some(t.(quotes := !t.quotes))
    else if !t.quotes && c == ';' then Some(Tokenizer(t.quotes, [], t.flushes + [t.tokens]))
    else if !t.quotes && c == ',' then Some(t.(tokens := t.tokens + [""]))
    else if t.tokens == [] then None
    else Some(t.(tokens := t.tokens[..|t.tokens| - 1] + [t.tokens[|t.tokens| - 1] + [c]]))
  }

  function TokenizeFrom(t: Tokenizer, s: string): Option<Tokenizer>
    decreases |s|
  {
    if s == [] then Some(t)
    else match TokenStep(t, s[0])
      case None => None
      case Some(t') => TokenizeFrom(t', s[1..])
  }

  /** The token lists a value stores, in order: one at each ';' and the remaining tokens at
      the end, when there are any. An empty value stores one empty token, and the undefined
      case needs a ';' to have cleared the tokens. */
  function Tokenize(value: string): (r: Option<seq<seq<string>>>)
    ensures value == [] ==> r == Some([[""]])
    ensures r.None? ==> ';' in value
  {
    TokenizeWithoutSemicolon(Tokenizer(false, [""], []), value);
    assert value == [] ==> TokenizeFrom(Tokenizer(false, [""], []), value) == Some(Tokenizer(false, [""], []));
    assert [] + [[""]] == [[""]];
    match TokenizeFrom(Tokenizer(false, [""], []), value)
    case None => None
    case Some(t) => Some(t.flushes + (if t.tokens != [] then [t.tokens] else []))
  }

  /** Without a ';' the tokens are never cleared, so the loop is defined throughout. */
  lemma {:induction false} TokenizeWithoutSemicolon(t: Tokenizer, s: string)
    requires t.tokens != []
    ensures ';' !in s ==> TokenizeFrom(t, s).Some? && TokenizeFrom(t, s).value.tokens != []
    decreases |s|
  {
    if s != [] && ';' !in s {
      assert s[0] != ';' && ';' !in s[1..];
      var t' := TokenStep(t, s[0]);
      assert t'.Some? && t'.value.tokens != [];
      TokenizeWithoutSemicolon(t'.value, s[1..]);
    }
  }

  lemma {:induction false} TokenizeAppend(t: Tokenizer, a: string, b: string)
    ensures TokenizeFrom(t, a + b)
      == (match TokenizeFrom(t, a) case None => None case Some(t') => TokenizeFrom(t', b))
    decreases |a|
  {
    if a != [] {
      assert (a + b)[0] == a[0] && (a + b)[1..] == a[1..] + b;
      match TokenStep(t, a[0]) {
        case None =>
        case Some(t') =>
          assert TokenizeFrom(t, a) == TokenizeFrom(t', a[1..]);
          assert TokenizeFrom(t, a + b) == TokenizeFrom(t', a[1..] + b);
          TokenizeAppend(t', a[1..], b);
      }
    } else {
      assert a + b == b;
    }
  }

  /** A character that plays no part in splitting. */
  predicate Plain(c: char) {
    c != '"' && c != ',' && c != ';'
  }

  /** Plain characters outside quotes are added to the last token. */
  lemma {:induction false} TokenizePlain(p: seq<string>, x: string, fl: seq<seq<string>>, s: string)
    requires forall j :: 0 <= j < |s| ==> Plain(s[j])
    ensures TokenizeFrom(Tokenizer(false, p + [x], fl), s) == Some(Tokenizer(false, p + [x + s], fl))
    decreases |s|
  {
    if s != [] {
      var t' := Tokenizer(false, p + [x + [s[0]]], fl);
      assert TokenStep(Tokenizer(false, p + [x], fl), s[0]) == Some(t') by {
        assert (p + [x])[..|p + [x]| - 1] == p && (p + [x])[|p + [x]| - 1] == x;
        assert Plain(s[0]);
      }
      assert TokenizeFrom(Tokenizer(false, p + [x], fl), s) == TokenizeFrom(t', s[1..]);
      TokenizePlain(p, x + [s[0]], fl, s[1..]);
      assert x + [s[0]] + s[1..] == x + s;
    } else {
      assert x + s == x;
    }
  }

  /** The text of the values of a leaf on its line: separated by ", " and ended by ';'. */
  function ValuesLine(vs: seq<string>): string
    requires vs != []
    decreases |vs|
  {
    if |vs| == 1 then vs[0] + ";" else vs[0] + ", " + ValuesLine(vs[1..])
  }

  lemma {:induction false} ValuesTextLine(vs: seq<string>)
    requires vs != []
    ensures ValuesText(vs) == ValuesLine(vs) + "\n"
    decreases |vs|
  {
    if |vs| > 1 {
      ValuesTextLine(vs[1..]);
    }
  }

  /** The tokens a line of values yields before trimming: the first value, then each
      further one after the space that followed its comma. */
  function Spaced(vs: seq<string>): (r: seq<string>)
    requires vs != []
    ensures |r| == |vs| && r[0] == vs[0]
    ensures forall j {:trigger r[j]} :: 1 <= j < |vs| ==> r[j] == " " + vs[j]
  {
    [vs[0]] + seq(|vs| - 1, j requires 0 <= j < |vs| - 1 => " " + vs[j + 1])
  }

  /** A value written by `Write` contains no character that splits, nor a newline, and has
      no whitespace at either end. */
  predicate ValueOk(v: string) {
    Trimmed(v) && forall j :: 0 <= j < |v| ==> Plain(v[j]) && v[j] != '\n'
  }

  /** Tokenizing a line of values continues the last token with the first value, adds one
      token per further value, and stores them all at the final ';'. */
  lemma {:induction false} TokenizeValues(p: seq<string>, x: string, fl: seq<seq<string>>, vs: seq<string>)
    requires vs != [] && forall j :: 0 <= j < |vs| ==> ValueOk(vs[j])
    ensures TokenizeFrom(Tokenizer(false, p + [x], fl), ValuesLine(vs))
      == Some(Tokenizer(false, [], fl + [p + [x + vs[0]] + Spaced(vs)[1..]]))
    decreases |vs|
  {
    assert ValueOk(vs[0]);
    if |vs| == 1 {
      TokenizeLastValue(p, x, fl, vs);
    } else {
      TokenizeValues(p + [x + vs[0]], " ", fl, vs[1..]);
      TokenizeNextValue(p, x, fl, vs);
    }
  }

  /** The last value continues the current token and is stored at the ';'. */
  lemma TokenizeLastValue(p: seq<string>, x: string, fl: seq<seq<string>>, vs: seq<string>)
    requires |vs| == 1 && ValueOk(vs[0])
    ensures TokenizeFrom(Tokenizer(false, p + [x], fl), ValuesLine(vs))
      == Some(Tokenizer(false, [], fl + [p + [x + vs[0]] + Spaced(vs)[1..]]))
  {
    var t := Tokenizer(false, p + [x], fl);
    var t1 := Tokenizer(false, p + [x + vs[0]], fl);
    TokenizePlain(p, x, fl, vs[0]);
    TokenizeAppend(t, vs[0], ";");
    assert ";"[0] == ';' && ";"[1..] == "";
    assert TokenizeFrom(t1, ";") == Some(Tokenizer(false, [], fl + [p + [x + vs[0]]]));
    assert Spaced(vs)[1..] == [];
    assert p + [x + vs[0]] + Spaced(vs)[1..] == p + [x + vs[0]];
  }

  /** A value followed by ", " continues the current token, then opens one holding the
      space, where the rest of the line goes on. */
  lemma TokenizeNextValue(p: seq<string>, x: string, fl: seq<seq<string>>, vs: seq<string>)
    requires |vs| > 1 && ValueOk(vs[0])
    requires TokenizeFrom(Tokenizer(false, p + [x + vs[0]] + [" "], fl), ValuesLine(vs[1..]))
      == Some(Tokenizer(false, [], fl + [p + [x + vs[0]] + [" " + vs[1..][0]] + Spaced(vs[1..])[1..]]))
    ensures TokenizeFrom(Tokenizer(false, p + [x], fl), ValuesLine(vs))
      == Some(Tokenizer(false, [], fl + [p + [x + vs[0]] + Spaced(vs)[1..]]))
  {
    assert ValuesLine(vs) == vs[0] + (", " + ValuesLine(vs[1..]));
    TokenizeValueSeparator(p, x, fl, vs[0], ValuesLine(vs[1..]));
    SpacedTail(p + [x + vs[0]], vs);
  }

  /** A plain value then ", " leaves a fresh token holding the space after it. */
  lemma TokenizeValueSeparator(p: seq<string>, x: string, fl: seq<seq<string>>, v: string, rest: string)
    requires forall j :: 0 <= j < |v| ==> Plain(v[j])
    ensures TokenizeFrom(Tokenizer(false, p + [x], fl), v + (", " + rest))
      == TokenizeFrom(Tokenizer(false, p + [x + v] + [" "], fl), rest)
  {
    TokenizePlain(p, x, fl, v);
    TokenizeAppend(Tokenizer(false, p + [x], fl), v, ", " + rest);
    TokenizeSeparator(p + [x + v], fl, rest);
  }

  /** The spaced values after the first are the second, spaced, then the rest. */
  lemma SpacedTail(q: seq<string>, vs: seq<string>)
    requires |vs| > 1
    ensures q + [" " + vs[1..][0]] + Spaced(vs[1..])[1..] == q + Spaced(vs)[1..]
  {
    var a := Spaced(vs)[1..];
    var b := [" " + vs[1..][0]] + Spaced(vs[1..])[1..];
    assert |a| == |b|;
    forall j | 0 <= j < |a|
      ensures a[j] == b[j]
    {
      if j > 0 {
        assert b[j] == Spaced(vs[1..])[j] == " " + vs[1..][j];
      }
    }
    assert a == b;
    assert q + [" " + vs[1..][0]] + Spaced(vs[1..])[1..] == q + b;
  }

  /** The separator ", " outside quotes starts a new token holding the space. */
  lemma TokenizeSeparator(p: seq<string>, fl: seq<seq<string>>, rest: string)
    ensures TokenizeFrom(Tokenizer(false, p, fl), ", " + rest)
      == TokenizeFrom(Tokenizer(false, p + [" "], fl), rest)
  {
    var t1 := Tokenizer(false, p, fl);
    var t2 := Tokenizer(false, p + [""], fl);
    var t3 := Tokenizer(false, p + [" "], fl);
    assert TokenStep(t1, ',') == Some(t2);
    assert TokenStep(t2, ' ') == Some(t3) by {
      assert (p + [""])[..|p + [""]| - 1] == p && (p + [""])[|p + [""]| - 1] == "";
      assert "" + [' '] == " ";
    }
    assert (", " + rest)[0] == ',' && (", " + rest)[1..] == " " + rest;
    assert (" " + rest)[0] == ' ' && (" " + rest)[1..] == rest;
  }

  lemma HeadTail(none: seq<string>, s: seq<string>)
    requires none == [] && s != []
    ensures none + [s[0]] + s[1..] == s
  {
  }

  /** Tokenizing a line of values ends outside quotes with the spaced values flushed. */
  lemma TokenizeValuesFrom(vs: seq<string>)
    requires vs != [] && forall j :: 0 <= j < |vs| ==> ValueOk(vs[j])
    ensures TokenizeFrom(Tokenizer(false, [""], []), ValuesLine(vs))
      == Some(Tokenizer(false, [], [Spaced(vs)]))
  {
    var none: seq<string> := [];
    var noFlush: seq<seq<string>> := [];
    var sp := Spaced(vs);
    var flushed := none + ["" + vs[0]] + sp[1..];
    assert TokenizeFrom(Tokenizer(false, [""], []), ValuesLine(vs))
      == Some(Tokenizer(false, [], noFlush + [flushed])) by {
      assert none + [""] == [""];
      TokenizeValues(none, "", noFlush, vs);
    }
    assert noFlush + [flushed] == [sp] by {
      assert "" + vs[0] == sp[0];
      HeadTail(none, sp);
    }
  }

  /** A line of values stores exactly one token list, the spaced values. */
  lemma TokenizeValuesLine(vs: seq<string>)
    requires vs != [] && forall j :: 0 <= j < |vs| ==> ValueOk(vs[j])
    ensures Tokenize(ValuesLine(vs)) == Some([Spaced(vs)])
  {
    TokenizeValuesFrom(vs);
    var fl := [Spaced(vs)];
    var tail: seq<seq<string>> := [];
    assert fl + tail == fl;
  }


  // ---------------------------------------------------------------------------------
  // storing tokens

  /** The loop storing a token list from the k-th token on: each token, trimmed, at its own
      index of the child called `name`. */
  function StoreFrom(n: Node, name: string, tokens: seq<string>, k: nat): Node
    requires k <= |tokens|
    decreases |tokens| - k
  {
    if k == |tokens| then n else StoreFrom(SetChild(n, name, Trim(tokens[k]), k), name, tokens, k + 1)
  }

  /** Every stored token list in turn. */
  function StoreAll(n: Node, name: string, flushes: seq<seq<string>>): Node
    decreases |flushes|
  {
    if flushes == [] then n else StoreAll(StoreFrom(n, name, flushes[0], 0), name, flushes[1..])
  }

  /** Each token trimmed. */
  function TrimAll(tokens: seq<string>): (r: seq<string>)
    ensures |r| == |tokens| && forall j :: 0 <= j < |tokens| ==> r[j] == Trim(tokens[j])
  {
    seq(|tokens|, j requires 0 <= j < |tokens| => Trim(tokens[j]))
  }

  /** A name appended after children of other names is found at the end. */
  lemma LookupLast(objs: seq<(string, Node)>, name: string, child: Node)
    requires name !in Names(objs)
    ensures Lookup(objs + [(name, child)], name) == |objs|
  {
    var objs' := objs + [(name, child)];
    assert objs'[|objs|].0 == name;
    assert forall q :: 0 <= q < |objs| ==> objs'[q].0 == Names(objs)[q];
  }

  /** Storing into a child that is the last one and whose values are the first k trimmed
      tokens completes its values with the rest of them. */
  lemma {:induction false} StoreFromLast(v: seq<string>, objs: seq<(string, Node)>, name: string,
                                          tokens: seq<string>, k: nat, vals: seq<string>)
    requires name !in Names(objs) && k <= |tokens| && |vals| == k
    ensures StoreFrom(Node(v, objs + [(name, Node(vals, []))]), name, tokens, k)
      == Node(v, objs + [(name, Node(vals + TrimAll(tokens[k..]), []))])
    decreases |tokens| - k
  {
    if k < |tokens| {
      var vals' := vals + [Trim(tokens[k])];
      StoreNextLast(v, objs, name, tokens, k, vals);
      StoreFromLast(v, objs, name, tokens, k + 1, vals');
      TrimAllStep(tokens, k, vals);
    } else {
      assert vals + TrimAll(tokens[k..]) == vals;
    }
  }

  /** Storing the k-th token into the last child appends it, trimmed, to its values. */
  lemma StoreNextLast(v: seq<string>, objs: seq<(string, Node)>, name: string,
                      tokens: seq<string>, k: nat, vals: seq<string>)
    requires name !in Names(objs) && k < |tokens| && |vals| == k
    ensures StoreFrom(Node(v, objs + [(name, Node(vals, []))]), name, tokens, k)
      == StoreFrom(Node(v, objs + [(name, Node(vals + [Trim(tokens[k])], []))]), name, tokens, k + 1)
  {
    var objs' := objs + [(name, Node(vals, []))];
    LookupLast(objs, name, Node(vals, []));
    var vals' := vals + [Trim(tokens[k])];
    assert SetAt(vals, Trim(tokens[k]), k) == vals';
    assert objs'[|objs| := (name, Node(vals', []))] == objs + [(name, Node(vals', []))];
  }

  /** Trimming the tokens from k on is trimming the k-th, then the rest. */
  lemma TrimAllStep(tokens: seq<string>, k: nat, vals: seq<string>)
    requires k < |tokens|
    ensures vals + [Trim(tokens[k])] + TrimAll(tokens[k + 1..]) == vals + TrimAll(tokens[k..])
  {
    assert TrimAll(tokens[k..]) == [Trim(tokens[k])] + TrimAll(tokens[k + 1..]);
  }

  /** The trimmed tokens after the first of a spaced line are the values themselves. */
  lemma TrimSpacedTail(vs: seq<string>)
    requires vs != [] && forall j :: 0 <= j < |vs| ==> ValueOk(vs[j])
    ensures [vs[0]] + TrimAll(Spaced(vs)[1..]) == vs
  {
    var rest := TrimAll(Spaced(vs)[1..]);
    forall j | 0 <= j < |vs| - 1
      ensures rest[j] == vs[1 + j]
    {
      assert Spaced(vs)[1..][j] == Spaced(vs)[1 + j];
      TrimSpaced(vs[1 + j]);
    }
    assert [vs[0]] + rest == vs;
  }

  /** A value read back after the space that followed its comma. */
  lemma TrimSpaced(v: string)
    requires ValueOk(v)
    ensures Trim(" " + v) == v
  {
    if v != [] {
      TrimSpaceBefore(v);
    } else {
      assert " " + v == " ";
      assert Trim(" ") == "";
    }
  }

  /** Storing the first token of a new name appends a leaf holding it. */
  lemma StoreFirst(n: Node, name: string, v: string)
    requires name !in Names(n.objects)
    ensures SetChild(n, name, v, 0) == Node(n.values, n.objects + [(name, Node([v], []))])
  {
    SelectSpec(n, name);
    assert SetAt([], v, 0) == [v];
    assert (n.objects + [(name, Empty)])[|n.objects| := (name, Node([v], []))]
      == n.objects + [(name, Node([v], []))];
  }

  /** Storing the spaced values under a new name appends a leaf holding exactly them. */
  lemma StoreNewLeaf(n: Node, name: string, vs: seq<string>)
    requires name !in Names(n.objects) && vs != [] && forall j :: 0 <= j < |vs| ==> ValueOk(vs[j])
    ensures StoreAll(n, name, [Spaced(vs)]) == Node(n.values, n.objects + [(name, Node(vs, []))])
  {
    var tokens := Spaced(vs);
    assert ValueOk(vs[0]);
    TrimOfTrimmed(vs[0]);
    StoreFirst(n, name, vs[0]);
    assert StoreFrom(n, name, tokens, 0) == StoreFrom(SetChild(n, name, Trim(tokens[0]), 0), name, tokens, 1);
    StoreFromLast(n.values, n.objects, name, tokens, 1, [vs[0]]);
    TrimSpacedTail(vs);
    assert StoreAll(n, name, [tokens]) == StoreFrom(n, name, tokens, 0);
  }


  // ---------------------------------------------------------------------------------
  // reading

  /** The state of `Read` between lines: the stack below its top, as each ancestor with the
      position of the child the next one stands for; the top node; the current field name;
      and whether the bottom node itself has been popped. */
  datatype Reader = Reader(path: seq<(Node, nat)>, cur: Node, field: string, closed: bool)

  /** The position of the first '=' in s, or -1. */
  function FirstEquals(s: string): (k: int)
    ensures k == -1 || (0 <= k < |s| && s[k] == '=')
    ensures forall j :: 0 <= j < |s| && (k == -1 || j < k) ==> s[j] != '='
    decreases |s|
  {
    if s == [] then -1
    else if s[0] == '=' then 0
    else var k := FirstEquals(s[1..]); if k == -1 then -1 else k + 1
  }

  /** One line of the file. A blank line is skipped. A line with '=' names a field and
      stores its tokens in the top node's child of that name. Otherwise a line starting
      with '{' pushes the child named by the current field, one ending with '}' pops, and
      any other line becomes the current field name. Using or popping an empty stack is
      undefined in the source: None. A line moves the stack by at most one level, and once
      the bottom node is popped no line changes the tree. */
  function ReadLine(r: Reader, raw: string): (o: Option<Reader>)
    ensures o.Some? ==> |r.path| <= |o.value.path| + 1 && |o.value.path| <= |r.path| + 1
    ensures o.Some? && r.closed ==> o.value.closed && o.value.path == r.path && o.value.cur == r.cur
  {
    var line := Trim(raw);
    if line == [] then Some(r)
    else
      var i := FirstEquals(line);
      if i != -1 then
        var name := Trim(line[..i]);
        var value := Trim(line[i + 1..]);
        if r.closed then None
        else match Tokenize(value)
          case None => None
          case Some(fl) => Some(r.(cur := StoreAll(r.cur, name, fl), field := name))
      else if line[0] == '{' then
        if r.closed then None
        else
          var (m, p) := SelectChild(r.cur, r.field);
          Some(r.(path := r.path + [(m, p)], cur := m.objects[p].1))
      else if line[|line| - 1] == '}' then
        if r.closed then None
        else if r.path == [] then Some(r.(closed := true))
        else
          var (parent, p) := r.path[|r.path| - 1];
          Some(r.(path := r.path[..|r.path| - 1], cur := Reattach(parent, p, r.cur)))
      else Some(r.(field := line))
  }

  /** A parent with its p-th child replaced by the node popped off the stack. */
  function Reattach(parent: Node, p: nat, child: Node): Node {
    if p < |parent.objects|
    then Node(parent.values, parent.objects[p := (parent.objects[p].0, child)])
    else parent
  }

  function ReadLines(r: Reader, lines: seq<string>): Option<Reader>
    decreases |lines|
  {
    if lines == [] then Some(r)
    else match ReadLine(r, lines[0])
      case None => None
      case Some(r') => ReadLines(r', lines[1..])
  }

  /** The tree the stack belongs to: every node on it put back into its parent. */
  function Zip(path: seq<(Node, nat)>, cur: Node): Node
    decreases |path|
  {
    if path == [] then cur
    else Zip(path[..|path| - 1], Reattach(path[|path| - 1].0, path[|path| - 1].1, cur))
  }

  /** `Read` into the tree `root`: the tree after every line, or None where the source's
      behaviour is undefined. Blank lines leave the tree as it was. */
  function ReadTree(root: Node, lines: seq<string>): (r: Option<Node>)
    ensures (forall i :: 0 <= i < |lines| ==> Trim(lines[i]) == []) ==> r == Some(root)
  {
    ReadBlankLines(Reader([], root, "", false), lines);
    match ReadLines(Reader([], root, "", false), lines)
    case None => None
    case Some(r) => Some(Zip(r.path, r.cur))
  }

  /** Reading only blank lines leaves the reader as it was. */
  lemma {:induction false} ReadBlankLines(r: Reader, lines: seq<string>)
    ensures (forall i :: 0 <= i < |lines| ==> Trim(lines[i]) == []) ==> ReadLines(r, lines) == Some(r)
    decreases |lines|
  {
    if lines != [] && forall i :: 0 <= i < |lines| ==> Trim(lines[i]) == [] {
      assert Trim(lines[0]) == [];
      assert forall i :: 0 <= i < |lines[1..]| ==> Trim(lines[1..][i]) == [] by {
        forall i | 0 <= i < |lines[1..]|
          ensures Trim(lines[1..][i]) == []
        {
          assert lines[1..][i] == lines[i + 1];
        }
      }
      ReadBlankLines(r, lines[1..]);
    }
  }

  lemma {:induction false} ReadLinesAppend(r: Reader, a: seq<string>, b: seq<string>)
    ensures ReadLines(r, a + b)
      == (match ReadLines(r, a) case None => None case Some(r') => ReadLines(r', b))
    decreases |a|
  {
    if a != [] {
      assert (a + b)[0] == a[0] && (a + b)[1..] == a[1..] + b;
      match ReadLine(r, a[0]) {
        case None =>
        case Some(r') =>
          assert ReadLines(r, a) == ReadLines(r', a[1..]);
          assert ReadLines(r, a + b) == ReadLines(r', a[1..] + b);
          ReadLinesAppend(r', a[1..], b);
      }
    } else {
      assert a + b == b;
    }
  }

  // ---------------------------------------------------------------------------------
  // the round trip

  /** A name `Write` and `Read` agree on: not empty, no '=' or newline, no whitespace at
      either end, not starting with '{' and not ending with '}'. */
  predicate NameOk(s: string) {
    s != [] && Trimmed(s) && s[0] != '{' && s[|s| - 1] != '}'
    && forall j :: 0 <= j < |s| ==> s[j] != '=' && s[j] != '\n'
  }

  /** A tree `Read` rebuilds from what `Write` prints: each child a leaf with at least one
      value or a node with children and no values, names distinct among siblings, and every
      name and value of the restricted form. */
  predicate GoodNode(n: Node)
    decreases n
  {
    Distinct(Names(n.objects))
    && forall i :: 0 <= i < |n.objects| ==>
      NameOk(n.objects[i].0)
      && (n.objects[i].1.objects == [] ==>
            n.objects[i].1.values != [] && forall j :: 0 <= j < |n.objects[i].1.values| ==> ValueOk(n.objects[i].1.values[j]))
      && (n.objects[i].1.objects != [] ==> n.objects[i].1.values == [])
      && GoodNode(n.objects[i].1)
  }

  /** The lines `Write` prints for the children of `n` from the i-th on. */
  function ChildLines(n: Node, i: nat, tabs: nat): seq<string>
    requires i <= |n.objects| && GoodNode(n)
    decreases n, |n.objects| - i
  {
    if i == |n.objects| then []
    else
      var (name, child) := n.objects[i];
      assert n.objects[i] in n.objects;
      (if child.objects == [] then [Tabs(tabs) + name + " = " + ValuesLine(child.values)]
       else [Tabs(tabs) + name, Tabs(tabs) + "{"] + ChildLines(child, 0, tabs + 1) + [Tabs(tabs) + "}"])
      + ChildLines(n, i + 1, tabs)
  }

  lemma NoNewlineTabs(tabs: nat, s: string)
    requires forall j :: 0 <= j < |s| ==> s[j] != '\n'
    ensures forall j :: 0 <= j < |Tabs(tabs) + s| ==> (Tabs(tabs) + s)[j] != '\n'
  {
  }

  lemma {:induction false} ValuesLineNoNewline(vs: seq<string>)
    requires vs != [] && forall j :: 0 <= j < |vs| ==> ValueOk(vs[j])
    ensures forall j :: 0 <= j < |ValuesLine(vs)| ==> ValuesLine(vs)[j] != '\n'
    decreases |vs|
  {
    assert ValueOk(vs[0]);
    if |vs| > 1 {
      ValuesLineNoNewline(vs[1..]);
    }
  }

  /** The text `Write` prints splits into the lines `ChildLines` lists. */
  lemma {:induction false} LinesOfChildren(n: Node, i: nat, tabs: nat, rest: string)
    requires i <= |n.objects| && GoodNode(n)
    ensures Lines(ChildrenText(n, i, tabs) + rest) == ChildLines(n, i, tabs) + Lines(rest)
    decreases n, |n.objects| - i
  {
    if i < |n.objects| {
      var child := n.objects[i].1;
      assert n.objects[i] in n.objects;
      LinesOfChildren(n, i + 1, tabs, rest);
      if child.objects == [] {
        LeafChildLines(n, i, tabs, rest);
      } else {
        var after := ChildrenText(n, i + 1, tabs) + rest;
        LinesOfChildren(child, 0, tabs + 1, Line(Tabs(tabs) + "}") + after);
        InnerChildLines(n, i, tabs, rest);
      }
    } else {
      assert ChildrenText(n, i, tabs) + rest == rest;
    }
  }

  /** One leaf child's lines followed by those of its later siblings. */
  lemma LeafChildLines(n: Node, i: nat, tabs: nat, rest: string)
    requires i < |n.objects| && GoodNode(n) && n.objects[i].1.objects == []
    requires Lines(ChildrenText(n, i + 1, tabs) + rest) == ChildLines(n, i + 1, tabs) + Lines(rest)
    ensures Lines(ChildrenText(n, i, tabs) + rest) == ChildLines(n, i, tabs) + Lines(rest)
  {
    var (name, child) := n.objects[i];
    assert n.objects[i] in n.objects;
    var after := ChildrenText(n, i + 1, tabs) + rest;
    var leaf := Tabs(tabs) + name + " = " + ValuesText(child.values);
    LinesOfLeaf(tabs, name, child.values, after);
    Assoc(leaf, ChildrenText(n, i + 1, tabs), rest);
  }

  /** One child with children of its own: its name, its braces and its children's lines,
      followed by those of its later siblings. */
  lemma InnerChildLines(n: Node, i: nat, tabs: nat, rest: string)
    requires i < |n.objects| && GoodNode(n) && n.objects[i].1.objects != []
    requires Lines(ChildrenText(n, i + 1, tabs) + rest) == ChildLines(n, i + 1, tabs) + Lines(rest)
    requires n.objects[i] in n.objects && GoodNode(n.objects[i].1)
    requires var after := ChildrenText(n, i + 1, tabs) + rest;
      Lines(ChildrenText(n.objects[i].1, 0, tabs + 1) + (Line(Tabs(tabs) + "}") + after))
      == ChildLines(n.objects[i].1, 0, tabs + 1) + Lines(Line(Tabs(tabs) + "}") + after)
    ensures Lines(ChildrenText(n, i, tabs) + rest) == ChildLines(n, i, tabs) + Lines(rest)
  {
    var (name, child) := n.objects[i];
    var after := ChildrenText(n, i + 1, tabs) + rest;
    var inner := ChildrenText(child, 0, tabs + 1);
    var close := Line(Tabs(tabs) + "}");
    var node := Line(Tabs(tabs) + name) + (Line(Tabs(tabs) + "{") + (inner + close));
    LinesOfInner(tabs, name, inner, ChildLines(child, 0, tabs + 1), after);
    Assoc(node, ChildrenText(n, i + 1, tabs), rest);
  }


  /** The line of a leaf. */
  lemma LinesOfLeaf(tabs: nat, name: string, vs: seq<string>, after: string)
    requires NameOk(name) && vs != [] && forall j :: 0 <= j < |vs| ==> ValueOk(vs[j])
    ensures Lines(Tabs(tabs) + name + " = " + ValuesText(vs) + after)
      == [Tabs(tabs) + name + " = " + ValuesLine(vs)] + Lines(after)
  {
    var l := Tabs(tabs) + name + " = " + ValuesLine(vs);
    ValuesTextLine(vs);
    ValuesLineNoNewline(vs);
    assert forall j :: 0 <= j < |l| ==> l[j] != '\n';
    Assoc(Tabs(tabs) + name + " = ", ValuesLine(vs), "\n");
    LinesCons(l, after);
  }

  /** The lines of an opening brace, the children's lines and a closing brace. */
  lemma LinesOfBraces(open: string, inner: string, innerLines: seq<string>, close: string, after: string)
    requires forall j :: 0 <= j < |open| ==> open[j] != '\n'
    requires forall j :: 0 <= j < |close| ==> close[j] != '\n'
    requires Lines(inner + (Line(close) + after)) == innerLines + Lines(Line(close) + after)
    ensures Lines(Line(open) + (inner + (Line(close) + after)))
      == [open] + innerLines + [close] + Lines(after)
  {
    LinesCons(open, inner + (Line(close) + after));
    LinesCons(close, after);
  }

  /** The lines of a node with children, given those of its children. */
  lemma LinesOfInner(tabs: nat, name: string, inner: string, innerLines: seq<string>, after: string)
    requires NameOk(name)
    requires Lines(inner + (Line(Tabs(tabs) + "}") + after)) == innerLines + Lines(Line(Tabs(tabs) + "}") + after)
    ensures Lines(Line(Tabs(tabs) + name) + (Line(Tabs(tabs) + "{") + (inner + Line(Tabs(tabs) + "}"))) + after)
      == [Tabs(tabs) + name, Tabs(tabs) + "{"] + innerLines + [Tabs(tabs) + "}"] + Lines(after)
  {
    var l1 := Tabs(tabs) + name;
    var l2 := Tabs(tabs) + "{";
    var l3 := Tabs(tabs) + "}";
    var body := Line(l2) + (inner + (Line(l3) + after));
    assert Line(l1) + (Line(l2) + (inner + Line(l3))) + after == Line(l1) + body by {
      Assoc(inner, Line(l3), after);
      Assoc(Line(l2), inner + Line(l3), after);
      Assoc(Line(l1), Line(l2) + (inner + Line(l3)), after);
    }
    NoNewlineTabs(tabs, name);
    NoNewlineTabs(tabs, "{");
    NoNewlineTabs(tabs, "}");
    LinesOfBraces(l2, inner, innerLines, l3, after);
    LinesCons(l1, body);
    ConsShape(l1, l2, innerLines, l3, Lines(after));
  }

  /** Regrouping the lines of a node. */
  lemma ConsShape(l1: string, l2: string, middle: seq<string>, l3: string, last: seq<string>)
    ensures [l1] + ([l2] + middle + [l3] + last) == [l1, l2] + middle + [l3] + last
  {
  }

  /** A line of values is not empty and does not start or end with whitespace. */
  lemma {:induction false} ValuesLineTrimmed(vs: seq<string>)
    requires vs != [] && forall j :: 0 <= j < |vs| ==> ValueOk(vs[j])
    ensures ValuesLine(vs) != [] && Trimmed(ValuesLine(vs))
    ensures ValuesLine(vs)[|ValuesLine(vs)| - 1] == ';'
    decreases |vs|
  {
    assert ValueOk(vs[0]);
    if |vs| > 1 {
      ValuesLineTrimmed(vs[1..]);
      var rest := ValuesLine(vs[1..]);
      assert ValuesLine(vs) == vs[0] + (", " + rest);
    } else {
      assert ValuesLine(vs) == vs[0] + ";";
    }
  }

  /** The first '=' after a prefix without one. */
  lemma {:induction false} FirstEqualsAfter(a: string, b: string)
    requires forall j :: 0 <= j < |a| ==> a[j] != '='
    requires b != [] && b[0] == '='
    ensures FirstEquals(a + b) == |a|
    decreases |a|
  {
    if a != [] {
      assert (a + b)[1..] == a[1..] + b;
      FirstEqualsAfter(a[1..], b);
    }
  }

  /** The pieces `Read` cuts the line of a leaf into: the trimmed line, the position of its
      first '=', and the trimmed name and value on either side. */
  lemma LeafLineParts(tabs: nat, name: string, vs: seq<string>)
    requires NameOk(name) && vs != [] && forall j :: 0 <= j < |vs| ==> ValueOk(vs[j])
    ensures var line := Trim(Tabs(tabs) + name + " = " + ValuesLine(vs));
      line == name + " = " + ValuesLine(vs) && FirstEquals(line) == |name| + 1
      && Trim(line[..|name| + 1]) == name && Trim(line[|name| + 2..]) == ValuesLine(vs)
  {
    var vl := ValuesLine(vs);
    ValuesLineTrimmed(vs);
    FieldLineParts(tabs, name, vl);
  }

  /** The shape of a "name = values" line. */
  lemma FieldLineShape(t: string, name: string, vl: string)
    ensures t + name + " = " + vl == t + (name + " " + ("= " + vl))
    ensures name + " = " + vl == name + " " + ("= " + vl)
    ensures (name + " " + ("= " + vl))[..|name| + 1] == name + " "
    ensures (name + " " + ("= " + vl))[|name| + 2..] == " " + vl
  {
    assert " = " == " " + "= ";
    assert ("= " + vl)[1..] == " " + vl;
  }

  lemma FieldLineParts(tabs: nat, name: string, vl: string)
    requires NameOk(name) && vl != [] && Trimmed(vl)
    ensures var line := Trim(Tabs(tabs) + name + " = " + vl);
      line == name + " = " + vl && FirstEquals(line) == |name| + 1
      && Trim(line[..|name| + 1]) == name && Trim(line[|name| + 2..]) == vl
  {
    var body := name + " " + ("= " + vl);
    FieldLineShape(Tabs(tabs), name, vl);
    assert Trim(Tabs(tabs) + body) == body by {
      TrimAround(tabs, body);
    }
    assert FirstEquals(body) == |name| + 1 by {
      FirstEqualsAfter(name + " ", "= " + vl);
    }
    assert Trim(name + " ") == name by {
      TrimAround(0, name);
    }
    assert Trim(" " + vl) == vl by {
      TrimAround(0, vl);
    }
  }

  /** Reading the line of a leaf whose name is new appends the leaf with its values. */
  lemma LeafLineRead(r: Reader, tabs: nat, name: string, vs: seq<string>)
    requires !r.closed && NameOk(name) && name !in Names(r.cur.objects)
    requires vs != [] && forall j :: 0 <= j < |vs| ==> ValueOk(vs[j])
    ensures ReadLine(r, Tabs(tabs) + name + " = " + ValuesLine(vs))
      == Some(r.(cur := Node(r.cur.values, r.cur.objects + [(name, Node(vs, []))]), field := name))
  {
    LeafLineParts(tabs, name, vs);
    TokenizeValuesLine(vs);
    StoreNewLeaf(r.cur, name, vs);
  }

  /** Reading the line that names a child with children of its own sets the field. */
  lemma NameLineRead(r: Reader, tabs: nat, name: string)
    requires NameOk(name)
    ensures ReadLine(r, Tabs(tabs) + name) == Some(r.(field := name))
  {
    TrimAround(tabs, name);
  }

  /** Reading "{" after the name of a new child pushes that child, empty. */
  lemma OpenLineRead(r: Reader, tabs: nat)
    requires !r.closed && r.field !in Names(r.cur.objects)
    ensures ReadLine(r, Tabs(tabs) + "{")
      == Some(r.(path := r.path + [(Node(r.cur.values, r.cur.objects + [(r.field, Empty)]), |r.cur.objects|)],
                 cur := Empty))
  {
    TrimAround(tabs, "{");
    SelectSpec(r.cur, r.field);
  }

  /** Reading "}" with a parent on the stack puts the current node back into it. */
  lemma CloseLineRead(r: Reader, tabs: nat)
    requires !r.closed && r.path != []
    ensures ReadLine(r, Tabs(tabs) + "}")
      == Some(r.(path := r.path[..|r.path| - 1],
                 cur := Reattach(r.path[|r.path| - 1].0, r.path[|r.path| - 1].1, r.cur)))
  {
    TrimAround(tabs, "}");
  }

  /** What reading the lines of children does to a reader: they are appended, in order, to
      the current node, whose earlier children have other names; the stack is as before. */
  predicate ReadInto(r: Reader, res: Option<Reader>, added: seq<(string, Node)>) {
    res.Some? && !res.value.closed && res.value.path == r.path
    && res.value.cur == Node(r.cur.values, r.cur.objects + added)
  }

  /** Names of the children from the i-th on that the reader's node does not have yet. */
  predicate NewNames(r: Reader, n: Node, i: nat) {
    forall j :: i <= j < |n.objects| ==> n.objects[j].0 !in Names(r.cur.objects)
  }

  /** The lines of the i-th child alone. */
  function OneChildLines(n: Node, i: nat, tabs: nat): seq<string>
    requires i < |n.objects| && GoodNode(n)
  {
    var (name, child) := n.objects[i];
    assert n.objects[i] in n.objects;
    if child.objects == [] then [Tabs(tabs) + name + " = " + ValuesLine(child.values)]
    else [Tabs(tabs) + name, Tabs(tabs) + "{"] + ChildLines(child, 0, tabs + 1) + [Tabs(tabs) + "}"]
  }

  lemma ChildLinesStep(n: Node, i: nat, tabs: nat)
    requires i < |n.objects| && GoodNode(n)
    ensures ChildLines(n, i, tabs) == OneChildLines(n, i, tabs) + ChildLines(n, i + 1, tabs)
  {
  }

  /** The reader once the name line and "{" of a new child called `name` are read. */
  function InnerReader(r: Reader, name: string): Reader {
    Reader(r.path + [(Node(r.cur.values, r.cur.objects + [(name, Empty)]), |r.cur.objects|)], Empty, name, false)
  }

  /** Reading the line of a new leaf child appends it. */
  lemma ReadOneLeaf(n: Node, i: nat, tabs: nat, r: Reader)
    requires i < |n.objects| && GoodNode(n) && !r.closed && NewNames(r, n, i)
    requires n.objects[i].1.objects == []
    ensures ReadInto(r, ReadLines(r, OneChildLines(n, i, tabs)), [n.objects[i]])
  {
    var (name, child) := n.objects[i];
    assert n.objects[i] in n.objects;
    LeafLineRead(r, tabs, name, child.values);
    var line := Tabs(tabs) + name + " = " + ValuesLine(child.values);
    assert OneChildLines(n, i, tabs) == [line];
    assert [line][1..] == [];
  }

  /** The name line and the "{" of a new child push it, empty. */
  lemma ReadInnerOpen(r: Reader, tabs: nat, name: string)
    requires !r.closed && NameOk(name) && name !in Names(r.cur.objects)
    ensures ReadLines(r, [Tabs(tabs) + name, Tabs(tabs) + "{"]) == Some(InnerReader(r, name))
  {
    var l1 := Tabs(tabs) + name;
    var l2 := Tabs(tabs) + "{";
    var r1 := r.(field := name);
    NameLineRead(r, tabs, name);
    OpenLineRead(r1, tabs);
    assert [l1, l2][0] == l1 && [l1, l2][1..] == [l2];
    assert ReadLines(r, [l1, l2]) == ReadLines(r1, [l2]);
    assert [l2][1..] == [];
    assert ReadLines(r1, [l2]) == ReadLines(InnerReader(r, name), []);
  }

  /** The "}" after a child's own children puts the child, complete, at the end of its
      parent. */
  lemma ReadInnerClose(r: Reader, tabs: nat, name: string, child: Node, r3: Reader)
    requires !r3.closed && r3.path == InnerReader(r, name).path && r3.cur == child
    ensures ReadLines(r3, [Tabs(tabs) + "}"])
      == Some(r3.(path := r.path, cur := Node(r.cur.values, r.cur.objects + [(name, child)])))
  {
    CloseLineRead(r3, tabs);
    var objs := r.cur.objects;
    assert (objs + [(name, Empty)])[|objs| := (name, child)] == objs + [(name, child)];
    assert r3.path[..|r3.path| - 1] == r.path;
    assert [Tabs(tabs) + "}"][1..] == [];
  }

  /** Reading the lines of a new child with children, given what reading its children's
      lines does, appends it. */
  lemma ReadOneInner(n: Node, i: nat, tabs: nat, r: Reader)
    requires i < |n.objects| && GoodNode(n) && !r.closed && NewNames(r, n, i)
    requires n.objects[i].1.objects != [] && n.objects[i] in n.objects && GoodNode(n.objects[i].1)
    requires var r2 := InnerReader(r, n.objects[i].0);
      ReadInto(r2, ReadLines(r2, ChildLines(n.objects[i].1, 0, tabs + 1)), n.objects[i].1.objects[0..])
    ensures ReadInto(r, ReadLines(r, OneChildLines(n, i, tabs)), [n.objects[i]])
  {
    var (name, child) := n.objects[i];
    var r2 := InnerReader(r, name);
    var open := [Tabs(tabs) + name, Tabs(tabs) + "{"];
    var inner := ChildLines(child, 0, tabs + 1);
    var close := [Tabs(tabs) + "}"];
    assert OneChildLines(n, i, tabs) == open + (inner + close);
    ReadInnerOpen(r, tabs, name);
    ReadLinesAppend(r, open, inner + close);
    ReadLinesAppend(r2, inner, close);
    var r3 := ReadLines(r2, inner).value;
    assert child.objects[0..] == child.objects;
    assert r3.cur == child;
    ReadInnerClose(r, tabs, name, child, r3);
  }

  /** Reading one child's lines and then its later siblings' appends them all. */
  lemma ReadChildrenJoin(n: Node, i: nat, tabs: nat, r: Reader, r1: Reader)
    requires i < |n.objects| && GoodNode(n) && NewNames(r, n, i)
    requires ReadInto(r, ReadLines(r, OneChildLines(n, i, tabs)), [n.objects[i]])
    requires r1 == ReadLines(r, OneChildLines(n, i, tabs)).value
    requires ReadInto(r1, ReadLines(r1, ChildLines(n, i + 1, tabs)), n.objects[i + 1..])
    ensures ReadInto(r, ReadLines(r, ChildLines(n, i, tabs)), n.objects[i..])
  {
    var one := OneChildLines(n, i, tabs);
    var later := ChildLines(n, i + 1, tabs);
    assert ReadLines(r, ChildLines(n, i, tabs)) == ReadLines(r1, later) by {
      ChildLinesStep(n, i, tabs);
      ReadLinesAppend(r, one, later);
    }
    assert ReadInto(r, Some(r1), [n.objects[i]]);
    ReadIntoTrans(r, r1, ReadLines(r1, later), [n.objects[i]], n.objects[i + 1..]);
    assert [n.objects[i]] + n.objects[i + 1..] == n.objects[i..];
  }

  /** Reading that adds a, then reading that adds b, adds a + b. */
  lemma ReadIntoTrans(r: Reader, r1: Reader, res: Option<Reader>, a: seq<(string, Node)>,
                      b: seq<(string, Node)>)
    requires ReadInto(r, Some(r1), a) && ReadInto(r1, res, b)
    ensures ReadInto(r, res, a + b)
  {
    assert r.cur.objects + a + b == r.cur.objects + (a + b);
  }

  /** After a child is read, the names of its later siblings are still new. */
  lemma NewNamesStep(n: Node, i: nat, r: Reader, r1: Reader)
    requires i < |n.objects| && GoodNode(n) && NewNames(r, n, i)
    requires r1.cur.objects == r.cur.objects + [n.objects[i]]
    ensures NewNames(r1, n, i + 1)
  {
    forall j | i + 1 <= j < |n.objects|
      ensures n.objects[j].0 !in Names(r1.cur.objects)
    {
      assert Names(n.objects)[i] != Names(n.objects)[j];
      assert Names(r1.cur.objects) == Names(r.cur.objects) + [n.objects[i].0];
    }
  }

  /** Reading the lines `Write` prints for the children of a good node from the i-th on
      appends those children, in order, to the current node. */
  lemma {:induction false} ReadChildren(n: Node, i: nat, tabs: nat, r: Reader)
    requires i <= |n.objects| && GoodNode(n) && !r.closed && NewNames(r, n, i)
    ensures ReadInto(r, ReadLines(r, ChildLines(n, i, tabs)), n.objects[i..])
    decreases n, |n.objects| - i
  {
    if i == |n.objects| {
      assert r.cur.objects + n.objects[i..] == r.cur.objects;
    } else {
      var child := n.objects[i].1;
      assert n.objects[i] in n.objects;
      if child.objects == [] {
        ReadOneLeaf(n, i, tabs, r);
      } else {
        var r2 := InnerReader(r, n.objects[i].0);
        ReadChildren(child, 0, tabs + 1, r2);
        ReadOneInner(n, i, tabs, r);
      }
      var r1 := ReadLines(r, OneChildLines(n, i, tabs)).value;
      NewNamesStep(n, i, r, r1);
      ReadChildren(n, i + 1, tabs, r1);
      ReadChildrenJoin(n, i, tabs, r, r1);
    }
  }

  /** The lines of what `Write` prints: those of the children and a last, empty one. */
  lemma WrittenLines(root: Node)
    requires GoodNode(root)
    ensures Lines(WriteText(root)) == ChildLines(root, 0, 0) + [""]
  {
    LinesOfChildren(root, 0, 0, "");
    assert WriteText(root) + "" == WriteText(root);
    assert Lines("") == [""];
  }

  /** Reading what `Write` printed for a good tree into a node whose children have other
      names appends the tree's children to it; into an empty node it gives the tree back. */
  lemma WriteReadRoundTrip(base: Node, root: Node)
    requires GoodNode(root)
    requires forall j :: 0 <= j < |root.objects| ==> root.objects[j].0 !in Names(base.objects)
    ensures ReadTree(base, Lines(WriteText(root))) == Some(Node(base.values, base.objects + root.objects))
    ensures base == Empty && root.values == [] ==> ReadTree(base, Lines(WriteText(root))) == Some(root)
  {
    var r := Reader([], base, "", false);
    var lines := ChildLines(root, 0, 0);
    WrittenLines(root);
    ReadChildren(root, 0, 0, r);
    ReadLinesAppend(r, lines, [""]);
    var r1 := ReadLines(r, lines).value;
    assert ReadLines(r1, [""]) == Some(r1) by {
      assert Trim("") == [];
      assert [""][1..] == [];
    }
    assert root.objects[0..] == root.objects;
    assert r1.cur == Node(base.values, base.objects + root.objects);
    if base == Empty && root.values == [] {
      assert base.objects + root.objects == root.objects;
    }
  }
}
