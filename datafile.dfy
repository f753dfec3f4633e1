/** The tree of named properties of DataFile.hpp: every node holds a list of string values
    and a list of named child nodes kept in insertion order, with a map from each child's
    name to its position. Children are stored by value, as in the source's vector of
    (name, DataFile) pairs, so a child is a `Node` value inside its parent. */
module DataFiles {

  /** A node: its values and its (name, child) pairs in insertion order. The name-to-position
      map of the source is determined by the names and is kept only by the `DataFile` class. */
  datatype Node = Node(values: seq<string>, objects: seq<(string, Node)>)

  /** A default-constructed `DataFile`. */
  const Empty: Node := Node([], [])

  /** The exceptions `std::stoll` can throw. */
  datatype CppError = InvalidArgument | OutOfRange

  /** The result of a conversion: a value, or the exception thrown. */
  datatype Converted<T> = Parsed(value: T) | Throws(error: CppError)

  const LongLongMin: int := -0x8000_0000_0000_0000
  const LongLongMax: int := 0x7FFF_FFFF_FFFF_FFFF

  // ---------------------------------------------------------------------------------
  // values

  /** `SetString(s, idx)` on a value list: grown with empty strings to hold index `idx`,
      then `s` stored there. */
  function SetAt(vals: seq<string>, s: string, idx: nat): (r: seq<string>)
    ensures |r| == (if idx < |vals| then |vals| else idx + 1)
  {
    (if idx < |vals| then vals else vals + seq(idx + 1 - |vals|, _ => ""))[idx := s]
  }

  /** Storing puts `s` at `idx`, keeps every other value, and fills the gap it opens with
      empty strings. */
  lemma SetAtSpec(vals: seq<string>, s: string, idx: nat)
    ensures SetAt(vals, s, idx)[idx] == s
    ensures forall i :: 0 <= i < |vals| && i != idx ==> SetAt(vals, s, idx)[i] == vals[i]
    ensures forall i :: |vals| <= i < idx ==> SetAt(vals, s, idx)[i] == ""
  {
  }

  /** A character `std::isspace` accepts in the C locale, the set that the reader trims. */
  predicate IsCSpace(c: char) {
    c == ' ' || c == '\t' || c == '\n' || c == '\r' || c == '\U{C}' || c == '\U{B}'
  }

  predicate IsDigit(c: char) {
    '0' <= c <= '9'
  }

  /** The decimal digits of n, most significant first, as `std::to_string` writes them. */
  function Digits(n: nat): (r: string)
    ensures r != [] && forall i :: 0 <= i < |r| ==> IsDigit(r[i])
    decreases n
  {
    if n < 10 then [('0' as int + n) as char]
    else Digits(n / 10) + [('0' as int + n % 10) as char]
  }

  /** `std::to_string` of a `long long`. */
  function IntToString(v: int): string {
    if v < 0 then "-" + Digits(-v) else Digits(v)
  }

  /** The value of a string of decimal digits. */
  function DigitsValue(s: string): nat
    decreases |s|
  {
    if s == [] then 0 else DigitsValue(s[..|s| - 1]) * 10 + (s[|s| - 1] as int - '0' as int) % 10
  }

  /** The length of the run of digits at the front of s. */
  function DigitRun(s: string): (k: nat)
    ensures k <= |s|
    ensures forall i :: 0 <= i < k ==> IsDigit(s[i])
    ensures k == |s| || !IsDigit(s[k])
    decreases |s|
  {
    if s != [] && IsDigit(s[0]) then 1 + DigitRun(s[1..]) else 0
  }

  /** s without its leading whitespace. */
  function SkipSpaces(s: string): (r: string)
    ensures r == [] || !IsCSpace(r[0])
    decreases |s|
  {
    if s != [] && IsCSpace(s[0]) then SkipSpaces(s[1..]) else s
  }

  /** `std::stoll` in base 10: leading whitespace, an optional sign and the longest run of
      digits; no digits throws `invalid_argument`, a value outside `long long` throws
      `out_of_range`. */
  function Stoll(s: string): Converted<int> {
    var t := SkipSpaces(s);
    var neg := t != [] && t[0] == '-';
    var rest := if t != [] && (t[0] == '-' || t[0] == '+') then t[1..] else t;
    var k := DigitRun(rest);
    if k == 0 then Throws(InvalidArgument)
    else
      var m: int := DigitsValue(rest[..k]);
      var v: int := if neg then -m else m;
      if v < LongLongMin || LongLongMax < v then Throws(OutOfRange) else Parsed(v)
  }

  /** The digits written for n read back as n. */
  lemma {:induction false} DigitsValueOfDigits(n: nat)
    ensures DigitsValue(Digits(n)) == n
    decreases n
  {
    if n >= 10 {
      DigitsValueOfDigits(n / 10);
      assert Digits(n)[..|Digits(n)| - 1] == Digits(n / 10);
    }
  }

  /** The whole of an all-digit string is one digit run. */
  lemma {:induction false} DigitRunAll(s: string)
    requires forall i :: 0 <= i < |s| ==> IsDigit(s[i])
    ensures DigitRun(s) == |s|
    decreases |s|
  {
    if s != [] {
      DigitRunAll(s[1..]);
    }
  }

  /** `stoll` reads back what `to_string` writes, for every `long long`. */
  lemma StollOfIntToString(v: int)
    requires LongLongMin <= v <= LongLongMax
    ensures Stoll(IntToString(v)) == Parsed(v)
  {
    var s := IntToString(v);
    var m: nat := if v < 0 then -v else v;
    var d := Digits(m);
    assert SkipSpaces(s) == s;
    var rest := if v < 0 then s[1..] else s;
    assert rest == d by {
      if v < 0 {
        assert s[1..] == d;
      }
    }
    assert DigitRun(rest) == |d| by {
      DigitRunAll(d);
    }
    assert DigitsValue(rest[..|d|]) == m by {
      assert d[..|d|] == d;
      DigitsValueOfDigits(m);
    }
  }

  /** A string with no digit after its whitespace and sign throws `invalid_argument`. */
  lemma StollEmpty()
    ensures Stoll("") == Throws(InvalidArgument)
    ensures Stoll(" -") == Throws(InvalidArgument)
  {
    assert " -"[1..] == "-";
  }

  /** `(bool)std::stoll(s)`: true for any non-zero number. */
  function StollBool(s: string): (r: Converted<bool>)
    ensures r.Parsed? <==> Stoll(s).Parsed?
    ensures r.Parsed? ==> r.value == (Stoll(s).value != 0)
  {
    match Stoll(s)
    case Parsed(v) => Parsed(v != 0)
    case Throws(e) => Throws(e)
  }

  // ---------------------------------------------------------------------------------
  // children

  /** The names of the children, in insertion order. */
  function Names(objs: seq<(string, Node)>): (r: seq<string>)
    ensures |r| == |objs| && forall i :: 0 <= i < |objs| ==> r[i] == objs[i].0
  {
    seq(|objs|, i requires 0 <= i < |objs| => objs[i].0)
  }

  predicate Distinct(names: seq<string>) {
    forall i, j :: 0 <= i < j < |names| ==> names[i] != names[j]
  }

  /** The position of the first child called `key`, or -1. */
  function Lookup(objs: seq<(string, Node)>, key: string): (r: int)
    ensures r == -1 <==> key !in Names(objs)
    ensures r != -1 ==> 0 <= r < |objs| && objs[r].0 == key
    ensures forall j :: 0 <= j < r ==> objs[j].0 != key
    decreases |objs|
  {
    if objs == [] then -1
    else if objs[0].0 == key then 0
    else
      var r := Lookup(objs[1..], key);
      assert forall j :: 1 <= j < |objs| ==> objs[j] == objs[1..][j - 1];
      assert Names(objs) == [objs[0].0] + Names(objs[1..]);
      if r == -1 then -1 else r + 1
  }

  /** `operator[](key)` on a node value: the node, with an empty child called `key` appended
      when there was none, and the position of the child called `key`. */
  function SelectChild(n: Node, key: string): (r: (Node, nat))
    ensures r.1 < |r.0.objects| && r.0.objects[r.1].0 == key
  {
    var p := Lookup(n.objects, key);
    if p == -1 then (Node(n.values, n.objects + [(key, Empty)]), |n.objects|) else (n, p)
  }

  /** A new key appends an empty child at the end; an existing key returns the child already
      there and changes nothing. */
  lemma SelectSpec(n: Node, key: string)
    ensures key !in Names(n.objects) ==>
      SelectChild(n, key) == (Node(n.values, n.objects + [(key, Empty)]), |n.objects|)
    ensures key in Names(n.objects) ==> SelectChild(n, key).0 == n
    ensures Distinct(Names(n.objects)) ==> Distinct(Names(SelectChild(n, key).0.objects))
  {
    if key !in Names(n.objects) {
      var objs := n.objects + [(key, Empty)];
      forall i, j | 0 <= i < j < |objs|
        ensures Distinct(Names(n.objects)) ==> Names(objs)[i] != Names(objs)[j]
      {
        if j == |n.objects| {
          assert Names(n.objects)[i] == objs[i].0;
        }
      }
    }
  }

  /** `stack.top().get()[name].SetString(s, idx)`: store `s` at `idx` in the child called
      `name`, creating that child first when there is none. */
  function SetChild(n: Node, name: string, s: string, idx: nat): (r: Node)
    ensures r.values == n.values
  {
    var (m, p) := SelectChild(n, name);
    var child := m.objects[p].1;
    Node(m.values, m.objects[p := (name, Node(SetAt(child.values, s, idx), child.objects))])
  }

  /** Distinct names have as many of them as there are children. */
  lemma {:induction false} DistinctNamesCard(names: seq<string>)
    requires Distinct(names)
    ensures |set i | 0 <= i < |names| :: names[i]| == |names|
    decreases |names|
  {
    if names != [] {
      DistinctTail(names);
      DistinctNamesCard(names[1..]);
      NamesSetSplit(names);
    }
  }

  /** Dropping the first name keeps the rest distinct. */
  lemma DistinctTail(names: seq<string>)
    requires Distinct(names) && names != []
    ensures Distinct(names[1..])
  {
    var rest := names[1..];
    forall i, j | 0 <= i < j < |rest|
      ensures rest[i] != rest[j]
    {
      assert rest[i] == names[i + 1] && rest[j] == names[j + 1];
    }
  }

  /** The set of names is the first one added to the set of the rest, which lacks it. */
  lemma NamesSetSplit(names: seq<string>)
    requires Distinct(names) && names != []
    ensures var t := set i | 0 <= i < |names[1..]| :: names[1..][i];
      (set i | 0 <= i < |names| :: names[i]) == t + {names[0]} && names[0] !in t
  {
    var rest := names[1..];
    var s := set i | 0 <= i < |names| :: names[i];
    var t := set i | 0 <= i < |rest| :: rest[i];
    forall x | x in s
      ensures x in t + {names[0]}
    {
      var i :| 0 <= i < |names| && names[i] == x;
      if i > 0 {
        assert rest[i - 1] == x;
      }
    }
    forall x | x in t
      ensures x in s
    {
      var i :| 0 <= i < |rest| && rest[i] == x;
      assert names[i + 1] == x;
    }
    forall i | 0 <= i < |rest|
      ensures rest[i] != names[0]
    {
      assert rest[i] == names[i + 1];
    }
  }

  /** The names of the children after a new child is appended. */
  lemma KeysAppend(objs: seq<(string, Node)>, key: string)
    ensures (set i | 0 <= i < |objs + [(key, Empty)]| :: (objs + [(key, Empty)])[i].0)
      == (set i | 0 <= i < |objs| :: objs[i].0) + {key}
    ensures Names(objs + [(key, Empty)]) == Names(objs) + [key]
  {
    var t := objs + [(key, Empty)];
    forall i | 0 <= i < |objs|
      ensures objs[i].0 in set j | 0 <= j < |t| :: t[j].0
    {
      assert t[i].0 == objs[i].0;
    }
    assert t[|objs|].0 == key;
  }

  // ---------------------------------------------------------------------------------
  // the DataFile object

  /** `DataFile`: the values, the children in insertion order and the map from each child's
      name to its position. `Keys` is the set of names ever passed to `operator[]`. */
  class DataFile {
    var values: seq<string>
    var objects: seq<(string, Node)>
    var index: map<string, nat>
    ghost var Keys: set<string>

    /** The map agrees with the child list: distinct names, each mapped to its position,
        and they are exactly the keys requested so far. */
    ghost predicate Valid()
      reads this
    {
      Distinct(Names(objects))
      && (forall k :: k in index <==> k in Names(objects))
      && (forall k :: k in index ==> index[k] < |objects| && objects[index[k]].0 == k)
      && Keys == set i | 0 <= i < |objects| :: objects[i].0
    }

    /** The node this object holds. */
    function Snapshot(): Node
      reads this
    {
      Node(values, objects)
    }

    /** `DataFile()`: no values and no children. */
    constructor()
      ensures Valid() && Snapshot() == Empty && Keys == {}
    {
      values := [];
      objects := [];
      index := map[];
      Keys := {};
    }

    /** `SetString(s, idx)`. */
    method SetString(s: string, idx: nat)
      modifies this
      ensures values == SetAt(old(values), s, idx)
      ensures objects == old(objects) && index == old(index) && Keys == old(Keys)
      ensures idx < |values| && String(idx) == s
    {
      if idx >= |values| {
        values := values + seq(idx + 1 - |values|, _ => "");
      }
      values := values[idx := s];
    }

    /** `String(idx)`: the value at `idx`, which the caller must have stored. */
    function String(idx: nat): (r: string)
      reads this
      requires idx < |values|
      ensures r in values
    {
      values[idx]
    }

    /** `SetInt(v, idx)`: the decimal text of v stored at `idx`. */
    method SetInt(v: int, idx: nat)
      requires LongLongMin <= v <= LongLongMax
      modifies this
      ensures values == SetAt(old(values), IntToString(v), idx)
      ensures objects == old(objects) && index == old(index) && Keys == old(Keys)
      ensures idx < |values| && Int(idx) == Parsed(v)
    {
      IntRoundTrip(values, v, idx);
      SetString(IntToString(v), idx);
    }

    /** `Int(idx)`: the value at `idx` read as a `long long`. */
    function Int(idx: nat): (r: Converted<int>)
      reads this
      requires idx < |values|
      ensures r.Parsed? ==> LongLongMin <= r.value <= LongLongMax
    {
      Stoll(String(idx))
    }

    /** `SetBool(b, idx)`: "1" or "0" stored at `idx`. */
    method SetBool(b: bool, idx: nat)
      modifies this
      ensures values == SetAt(old(values), if b then "1" else "0", idx)
      ensures objects == old(objects) && index == old(index) && Keys == old(Keys)
      ensures idx == 0 ==> Bool() == Parsed(b)
      ensures idx != 0 && 0 < |old(values)| ==> 0 < |values| && Bool() == old(Bool())
    {
      BoolRoundTrip(values, b, idx);
      SetString(IntToString(if b then 1 else 0), idx);
    }

    /** `Bool()`: the first value read as a number, true when it is not zero. */
    function Bool(): (r: Converted<bool>)
      reads this
      requires 0 < |values|
      ensures r.Parsed? <==> Stoll(values[0]).Parsed?
      ensures r.Parsed? ==> (r.value <==> Stoll(values[0]).value != 0)
    {
      StollBool(String(0))
    }

    /** `HasProperty(name)`: whether `operator[]` was ever called with `name`. */
    function HasProperty(name: string): (r: bool)
      reads this
      requires Valid()
      ensures r <==> name in Keys
    {
      assert name in Keys <==> name in Names(objects) by {
        if name in Keys {
          var i :| 0 <= i < |objects| && objects[i].0 == name;
          assert Names(objects)[i] == name;
        }
      }
      name in index
    }

    /** `operator[](key)`: the position of the child called `key`, appended empty at the end
        when `key` is new. The returned position stands for the reference the source returns. */
    method Select(key: string) returns (pos: nat)
      requires Valid()
      modifies this
      ensures Valid() && Keys == old(Keys) + {key}
      ensures pos < |objects| && objects[pos].0 == key && values == old(values)
      ensures key in old(index) ==> objects == old(objects) && pos == old(index)[key]
      ensures key !in old(index) ==> objects == old(objects) + [(key, Empty)] && pos == |old(objects)|
      ensures (Node(values, objects), pos) == SelectChild(old(Snapshot()), key)
    {
      SelectSpec(Snapshot(), key);
      if key !in index {
        KeysAppend(objects, key);
        index := index[key := |objects|];
        objects := objects + [(key, Empty)];
        Keys := Keys + {key};
      } else {
        assert key in Names(objects);
        assert Lookup(objects, key) == index[key] by {
          var p := Lookup(objects, key);
          assert Names(objects)[p] == Names(objects)[index[key]];
        }
      }
      pos := index[key];
    }

    /** `CountValues()`. */
    function CountValues(): (r: nat)
      reads this
      ensures r == |values|
    {
      |values|
    }

    /** `CountObjects()`: the number of distinct keys ever passed to `operator[]`. */
    function CountObjects(): (r: nat)
      reads this
      requires Valid()
      ensures r == |Keys|
    {
      DistinctNamesCard(Names(objects));
      assert Keys == set i | 0 <= i < |Names(objects)| :: Names(objects)[i];
      |objects|
    }
  }

  /** An integer stored with `SetInt` reads back with `Int`. */
  lemma IntRoundTrip(vals: seq<string>, v: int, idx: nat)
    requires LongLongMin <= v <= LongLongMax
    ensures Stoll(SetAt(vals, IntToString(v), idx)[idx]) == Parsed(v)
  {
    StollOfIntToString(v);
  }

  /** A flag stored with `SetBool` at index 0 reads back with `Bool`; `Bool` reads only
      index 0, so a flag stored elsewhere leaves it as it was. */
  lemma BoolRoundTrip(vals: seq<string>, b: bool, idx: nat)
    ensures idx == 0 ==> StollBool(SetAt(vals, if b then "1" else "0", idx)[0]) == Parsed(b)
    ensures idx != 0 && 0 < |vals| ==> SetAt(vals, if b then "1" else "0", idx)[0] == vals[0]
  {
    StollOfIntToString(if b then 1 else 0);
    assert IntToString(1) == "1" && IntToString(0) == "0";
  }
}
