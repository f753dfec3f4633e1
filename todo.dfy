/** The TODO scanner (TodoFinder.py): comments are located by a table of (opener, closer)
    pairs, and the text after "TODO:" inside each comment is collected. The file is given
    as its content string; reading it and walking directories are not modelled. */
module TodoFinder {

  import opened PyCore

  /** A comment style: the string that opens a comment and the one that closes it. */
  type Style = (string, string)

  const CppComments: seq<Style> := [("//", "\n"), ("/*", "*/")]
  const PyComments: seq<Style> := [("#", "\n"), ("\"\"\"", "\"\"\"")]
  const TodoBase: string := "TODO:"

  /** Every opener is non-empty; the two tables satisfy this, and without it the scan
      can stand still at the end of the content. */
  predicate Openers(comments: seq<Style>) {
    forall i :: 0 <= i < |comments| ==> comments[i].0 != []
  }

  /** The comment `find_next_comment(content, comments, start)` reports: the first style
      of the table whose opener occurs at or after `start`, its opener's position, and the
      position of its closer searched from the opener (the last index when absent). */
  function NextComment(content: string, comments: seq<Style>, start: nat): (r: Option<(int, int)>)
    ensures r.Some? ==> start <= r.value.0
    ensures r.Some? && Openers(comments) ==> r.value.0 <= r.value.1 < |content|
    decreases |comments|
  {
    if comments == [] then None
    else
      var b := Find(content, comments[0].0, start);
      if b != -1 then
        var e := Find(content, comments[0].1, b);
        Some((b, if e == -1 then |content| - 1 else e))
      else NextComment(content, comments[1..], start)
  }

  /** `find_next_comment`: the loop over the table, returning at the first style found. */
  method FindNextComment(content: string, comments: seq<Style>, start: nat)
    returns (r: Option<(int, int)>)
    ensures r == NextComment(content, comments, start)
  {
    var i := 0;
    while i < |comments|
      invariant 0 <= i <= |comments|
      invariant NextComment(content, comments, start) == NextComment(content, comments[i..], start)
    {
      var (opener, closer) := comments[i];
      var indexBegin := Find(content, opener, start);
      if indexBegin != -1 {
        var indexEnd := Find(content, closer, indexBegin);
        if indexEnd == -1 {
          indexEnd := |content| - 1;
        }
        return Some((indexBegin, indexEnd));
      }
      assert comments[i..][1..] == comments[i + 1..];
      i := i + 1;
    }
    return None;
  }

  /** No comment is found exactly when no opener of the table occurs at or after `start`. */
  lemma {:induction false} NextCommentNone(content: string, comments: seq<Style>, start: nat)
    ensures NextComment(content, comments, start).None?
      <==> forall i :: 0 <= i < |comments| ==> Find(content, comments[i].0, start) == -1
    decreases |comments|
  {
    if comments != [] {
      NextCommentNone(content, comments[1..], start);
      assert forall i :: 1 <= i < |comments| ==> comments[i] == comments[1..][i - 1];
    }
  }

  /** Styles are tried in table order: the reported comment belongs to the first style
      whose opener occurs at all, however late, even if a later style's opener comes
      earlier in the content. Its end is the first closer at or after the opener, or the
      last index when there is none. */
  lemma {:induction false} NextCommentFirstStyle(content: string, comments: seq<Style>, start: nat, j: nat)
    requires j < |comments| && Find(content, comments[j].0, start) != -1
    requires forall i :: 0 <= i < j ==> Find(content, comments[i].0, start) == -1
    ensures var r := NextComment(content, comments, start);
      r.Some? && r.value.0 == Find(content, comments[j].0, start)
      && OccursAt(content, comments[j].0, r.value.0)
      && (forall p :: start <= p < r.value.0 ==> !OccursAt(content, comments[j].0, p))
    ensures var r := NextComment(content, comments, start);
      r.Some? && (OccursAt(content, comments[j].1, r.value.1)
        || (r.value.1 == |content| - 1
            && forall p :: r.value.0 <= p ==> !OccursAt(content, comments[j].1, p)))
    decreases j
  {
    if j > 0 {
      assert Find(content, comments[0].0, start) == -1;
      NextCommentFirstStyle(content, comments[1..], start, j - 1);
    }
  }

  /** A later style is not looked at while an earlier one occurs: in C++ content the
      block comment at the front is passed over for a line comment further on. */
  lemma LineCommentFirst()
    ensures NextComment("/**/ //", CppComments, 0) == Some((5, 6))
  {
    var c := "/**/ //";
    assert c[5..7] == "//" && Find(c, "//", 5) == 5;
    assert c[4..6] == " /" && Find(c, "//", 4) == 5;
    assert c[3..5] == "/ " && Find(c, "//", 3) == 5;
    assert c[2..4] == "*/" && Find(c, "//", 2) == 5;
    assert c[1..3] == "**" && Find(c, "//", 1) == 5;
    assert c[0..2] == "/*" && Find(c, "//", 0) == 5;
    assert Find(c, "\n", 7) == -1;
    assert c[6..7] == "/" && Find(c, "\n", 6) == -1;
    assert c[5..6] == "/" && Find(c, "\n", 5) == -1;
  }

  /** For the `"""` style the closer is searched from the opener itself, which it
      matches: such a comment always ends where it begins. */
  lemma DocstringEndsAtOpener(content: string, start: nat)
    requires Find(content, "#", start) == -1
    requires Find(content, "\"\"\"", start) != -1
    ensures var b := Find(content, "\"\"\"", start);
      NextComment(content, PyComments, start) == Some((b, b))
  {
    var b := Find(content, "\"\"\"", start);
    assert PyComments[1..] == [("\"\"\"", "\"\"\"")];
    assert Find(content, "\"\"\"", b) == b;
  }

  /** The text one comment contributes: what follows the first "TODO:" at or after its
      start, up to and including the character at its end, stripped; nothing when there
      is no "TODO:" strictly before the end or the text is blank. */
  function Item(content: string, begin: nat, end: int): (r: Option<string>)
    ensures r.Some? ==> r.value != []
  {
    var todoBegin := Find(content, TodoBase, begin);
    if todoBegin != -1 && todoBegin < end then
      var todo := Strip(Slice(content, todoBegin + |TodoBase|, end + 1));
      if |todo| > 0 then Some(todo) else None
    else None
  }

  /** Where an item comes from: a "TODO:" lies at or after the comment's start and before
      its end, no earlier one lies in between, and the item is the text after it up to the
      end character, with whitespace stripped from both sides. */
  lemma ItemSource(content: string, begin: nat, end: int)
    requires Item(content, begin, end).Some?
    ensures exists t ::
      begin <= t < end && OccursAt(content, TodoBase, t)
      && (forall p :: begin <= p < t ==> !OccursAt(content, TodoBase, p))
      && Item(content, begin, end).value == Strip(Slice(content, t + |TodoBase|, end + 1))
    ensures Stripped(Item(content, begin, end).value)
  {
    var t := Find(content, TodoBase, begin);
    StripIsInfix(Slice(content, t + |TodoBase|, end + 1));
    assert begin <= t < end && OccursAt(content, TodoBase, t);
  }

  /** The comments `parse` visits from `start` on, in the order they are found; each
      search resumes just past the previous comment's end. */
  function CommentsFrom(content: string, comments: seq<Style>, start: nat): (r: seq<(nat, int)>)
    requires Openers(comments)
    decreases |content| - start
  {
    match NextComment(content, comments, start)
    case None => []
    case Some((begin, end)) => [(begin, end)] + CommentsFrom(content, comments, end + 1)
  }

  /** The items of a list of comments, in order. */
  function ItemsOf(content: string, cs: seq<(nat, int)>): seq<string> {
    if cs == [] then [] else Items(content, cs[0].0, cs[0].1) + ItemsOf(content, cs[1..])
  }

  /** What `parse` collects from `start` on: the items of the successive comments, each
      non-empty and stripped. */
  function TodosFrom(content: string, comments: seq<Style>, start: nat): (r: seq<string>)
    requires Openers(comments)
    ensures forall k :: 0 <= k < |r| ==> Clean(r[k])
  {
    ItemsOfClean(content, CommentsFrom(content, comments, start));
    ItemsOf(content, CommentsFrom(content, comments, start))
  }

  /** The item of one comment as a list of zero or one elements. */
  function Items(content: string, begin: nat, end: int): seq<string> {
    match Item(content, begin, end)
    case Some(todo) => [todo]
    case None => []
  }

  /** One turn of the scan: the comment found, then the scan past its end. */
  lemma {:induction false} CommentsStep(content: string, comments: seq<Style>, start: nat, begin: nat, end: int)
    requires Openers(comments) && NextComment(content, comments, start) == Some((begin, end))
    ensures end + 1 > start
    ensures CommentsFrom(content, comments, start) == [(begin, end)] + CommentsFrom(content, comments, end + 1)
  {
  }

  /** The items of a list of comments are those of its first followed by the rest's. */
  lemma {:induction false} ItemsOfCons(content: string, begin: nat, end: int, cs: seq<(nat, int)>)
    ensures ItemsOf(content, [(begin, end)] + cs) == Items(content, begin, end) + ItemsOf(content, cs)
  {
    assert ([(begin, end)] + cs)[1..] == cs;
  }

  /** One turn of `parse`: the item of the comment found, then the items past its end;
      the scan moves strictly forward. */
  lemma TodosStep(content: string, comments: seq<Style>, start: nat, begin: nat, end: int)
    requires Openers(comments) && NextComment(content, comments, start) == Some((begin, end))
    ensures end + 1 > start
    ensures TodosFrom(content, comments, start)
      == Items(content, begin, end) + TodosFrom(content, comments, end + 1)
  {
    CommentsStep(content, comments, start, begin, end);
    ItemsOfCons(content, begin, end, CommentsFrom(content, comments, end + 1));
  }

  /** The body of `parse`'s loop for one comment: the item it appends, if any. */
  method ReadItem(content: string, begin: nat, todoEnd: int) returns (found: seq<string>)
    ensures found == Items(content, begin, todoEnd)
  {
    found := [];
    var todoBegin := Find(content, TodoBase, begin);
    if todoBegin != -1 && todoBegin < todoEnd {
      var todo := Strip(Slice(content, todoBegin + |TodoBase|, todoEnd + 1));
      if |todo| > 0 {
        found := [todo];
      }
    }
  }

  /** One turn of `parse`'s loop keeps what is collected, followed by what remains to be
      collected, equal to the whole result. */
  lemma ParseStep(content: string, comments: seq<Style>, start: nat, begin: nat, end: int,
                  todos: seq<string>, found: seq<string>, total: seq<string>)
    requires Openers(comments) && NextComment(content, comments, start) == Some((begin, end))
    requires found == Items(content, begin, end)
    requires todos + TodosFrom(content, comments, start) == total
    ensures start < end + 1 <= |content|
    ensures (todos + found) + TodosFrom(content, comments, end + 1) == total
  {
    TodosStep(content, comments, start, begin, end);
    var rest := TodosFrom(content, comments, end + 1);
    assert (todos + found) + rest == todos + (found + rest);
  }

  /** `parse` on the content of a file: scan comment after comment, keeping every
      non-blank TODO item in discovery order. */
  method Parse(content: string, comments: seq<Style>) returns (todos: seq<string>)
    requires Openers(comments)
    ensures todos == TodosFrom(content, comments, 0)
  {
    todos := [];
    var start := 0;
    ghost var total := TodosFrom(content, comments, 0);
    while true
      invariant start <= |content|
      invariant todos + TodosFrom(content, comments, start) == total
      decreases |content| - start
    {
      var indices := FindNextComment(content, comments, start);
      if indices.None? {
        break;
      }
      var (begin, todoEnd) := indices.value;
      var found := ReadItem(content, begin, todoEnd);
      ParseStep(content, comments, start, begin, todoEnd, todos, found, total);
      todos := todos + found;
      start := todoEnd + 1;
    }
  }

  /** A collected item is non-empty and has no surrounding whitespace. */
  predicate Clean(todo: string) {
    todo != [] && Stripped(todo)
  }

  /** The items of any list of comments are clean. */
  lemma {:induction false} ItemsOfClean(content: string, cs: seq<(nat, int)>)
    ensures forall k :: 0 <= k < |ItemsOf(content, cs)| ==> Clean(ItemsOf(content, cs)[k])
    decreases |cs|
  {
    if cs != [] {
      var (begin, end) := cs[0];
      var head := Items(content, begin, end);
      var tail := ItemsOf(content, cs[1..]);
      ItemsOfClean(content, cs[1..]);
      if head != [] {
        ItemSource(content, begin, end);
        assert head[0] == Item(content, begin, end).value;
      }
      forall k | 0 <= k < |head + tail|
        ensures Clean((head + tail)[k])
      {
        if k >= |head| {
          assert (head + tail)[k] == tail[k - |head|];
        }
      }
    }
  }

  /** A comment that ends where it begins. */
  predicate IsPoint(r: Option<(int, int)>) {
    r.Some? ==> r.value.0 == r.value.1
  }

  /** When every comment a table finds ends where it begins, so does every comment
      `parse` visits. */
  lemma {:induction false} PointsFrom(content: string, comments: seq<Style>, start: nat)
    requires Openers(comments)
    requires forall s: nat :: IsPoint(NextComment(content, comments, s))
    ensures forall c :: c in CommentsFrom(content, comments, start) ==> c.0 == c.1
    decreases |content| - start
  {
    var r := NextComment(content, comments, start);
    if r.Some? {
      var (begin, end) := r.value;
      assert IsPoint(r);
      var rest := CommentsFrom(content, comments, end + 1);
      CommentsStep(content, comments, start, begin, end);
      PointsFrom(content, comments, end + 1);
      forall c | c in [(begin, end)] + rest
        ensures c.0 == c.1
      {
        if c != (begin, end) {
          assert c in rest;
        }
      }
    }
  }

  /** A comment that ends where it begins holds no item: no "TODO:" lies before its end. */
  lemma {:induction false} PointsHoldNothing(content: string, cs: seq<(nat, int)>)
    requires forall c :: c in cs ==> c.0 == c.1
    ensures ItemsOf(content, cs) == []
    decreases |cs|
  {
    if cs != [] {
      assert cs[0] in cs;
      assert Item(content, cs[0].0, cs[0].1).None?;
      PointsHoldNothing(content, cs[1..]);
    }
  }

  /** With the Python table, content with no '#' yields nothing at all: every comment
      found is a `"""` one, which ends where it begins, so no "TODO:" lies before its end. */
  lemma DocstringTodosLost(content: string, start: nat)
    requires forall p :: 0 <= p ==> !OccursAt(content, "#", p)
    ensures TodosFrom(content, PyComments, start) == []
  {
    forall s: nat
      ensures IsPoint(NextComment(content, PyComments, s))
    {
      assert Find(content, "#", s) == -1;
      if Find(content, "\"\"\"", s) != -1 {
        DocstringEndsAtOpener(content, s);
      }
    }
    PointsFrom(content, PyComments, start);
    PointsHoldNothing(content, CommentsFrom(content, PyComments, start));
  }
}
