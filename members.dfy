/**
 * The member listing: each fetched member is projected to its id and display
 * name, and the list is then sorted by name in place, stably, in Python's
 * string order (lexicographic by code point).
 */
module Members {
  import opened PyValues

  /** `{"member_id": ..., "name": ...}`: one row of the listing. */
  datatype MemberRow = MemberRow(memberId: Value, name: string)

  // ---------------------------------------------------------------------------
  // Projection
  // ---------------------------------------------------------------------------

  /** `f"{m.get('first_name', '')} {m.get('last_name', '')}".strip()`. */
  function DisplayName(m: Record): string {
    Strip(Str(GetOr(m, "first_name", VStr(""))) + " " + Str(GetOr(m, "last_name", VStr(""))))
  }

  /** The row built for one member. */
  function Project(m: Record): MemberRow {
    MemberRow(Get(m, "id"), DisplayName(m))
  }

  /** The list comprehension: one row per member, in fetched order. */
  function Projected(members: seq<Record>): (rows: seq<MemberRow>)
    ensures |rows| == |members|
    ensures forall i :: 0 <= i < |members| ==> rows[i] == Project(members[i])
  {
    seq(|members|, i requires 0 <= i < |members| => Project(members[i]))
  }

  /**
   * The row copies the member's id (None when it has none) and its name is
   * the first and last name around one space, with outer whitespace removed.
   */
  lemma ProjectFields(m: Record)
    ensures Project(m).memberId == (if "id" in m then m["id"] else VNone)
    ensures var first := if "first_name" in m then Str(m["first_name"]) else "";
            var last := if "last_name" in m then Str(m["last_name"]) else "";
            var full := first + " " + last;
            full == StripPrefix(full) + Project(m).name + StripSuffix(full)
            && AllSpace(StripPrefix(full)) && AllSpace(StripSuffix(full))
  {
    var full := Str(GetOr(m, "first_name", VStr(""))) + " " + Str(GetOr(m, "last_name", VStr("")));
    StripSplits(full);
    StripRemovesSpace(full);
  }

  /** A member with neither name gets the empty name. */
  lemma NamelessMember(m: Record)
    requires "first_name" !in m && "last_name" !in m
    ensures Project(m).name == ""
  {
    var full := Str(GetOr(m, "first_name", VStr(""))) + " " + Str(GetOr(m, "last_name", VStr("")));
    assert full == [' '];
    assert IsSpace(' ');
    assert StripLeft(full) == StripLeft([]);
  }

  /** A name present in the record but null prints as "None", as an f-string does. */
  lemma NullFirstName(m: Record)
    requires "first_name" in m && m["first_name"] == VNone
    requires "last_name" in m && m["last_name"] == VStr("Smith")
    ensures Project(m).name == "None Smith"
  {
    var first := Str(GetOr(m, "first_name", VStr("")));
    var last := Str(GetOr(m, "last_name", VStr("")));
    assert first == "None" && last == "Smith";
    var full := first + " " + last;
    assert |full| == 10 && full[0] == 'N' && full[9] == 'h';
    StripUnpadded(full);
    assert full == "None Smith";
  }

  /** A string that neither starts nor ends with whitespace is its own strip. */
  lemma StripUnpadded(s: string)
    requires s != [] && !IsSpace(s[0]) && !IsSpace(s[|s| - 1])
    ensures Strip(s) == s
  {
  }

  // ---------------------------------------------------------------------------
  // Python's string order
  // ---------------------------------------------------------------------------

  /** `a <= b` on Python strings: lexicographic by code point, a prefix first. */
  predicate LessEq(a: string, b: string)
    decreases |a|
  {
    a == [] || (b != [] && (a[0] < b[0] || (a[0] == b[0] && LessEq(a[1..], b[1..]))))
  }

  lemma {:induction false} LessEqReflexive(a: string)
    ensures LessEq(a, a)
    decreases |a|
  {
    if a != [] {
      LessEqReflexive(a[1..]);
    }
  }

  lemma {:induction false} LessEqTotal(a: string, b: string)
    ensures LessEq(a, b) || LessEq(b, a)
    decreases |a|
  {
    if a != [] && b != [] && a[0] == b[0] {
      LessEqTotal(a[1..], b[1..]);
    }
  }

  lemma {:induction false} LessEqTransitive(a: string, b: string, c: string)
    requires LessEq(a, b) && LessEq(b, c)
    ensures LessEq(a, c)
    decreases |a|
  {
    if a != [] && b != [] && c != [] && a[0] == b[0] && b[0] == c[0] {
      LessEqTransitive(a[1..], b[1..], c[1..]);
    }
  }

  lemma {:induction false} LessEqAntisymmetric(a: string, b: string)
    requires LessEq(a, b) && LessEq(b, a)
    ensures a == b
    decreases |a|
  {
    if a != [] {
      LessEqAntisymmetric(a[1..], b[1..]);
    }
  }

  // ---------------------------------------------------------------------------
  // Stable sort by name
  // ---------------------------------------------------------------------------

  predicate SortedByName(rows: seq<MemberRow>) {
    forall i, j :: 0 <= i < j < |rows| ==> LessEq(rows[i].name, rows[j].name)
  }

  /** Places `x` after every row whose name is at most its own. */
  function Insert(x: MemberRow, rows: seq<MemberRow>): seq<MemberRow> {
    if rows == [] || LessEq(rows[|rows| - 1].name, x.name) then rows + [x]
    else Insert(x, rows[..|rows| - 1]) + [rows[|rows| - 1]]
  }

  /** `rows.sort(key=lambda m: m["name"])` as a value: a stable sort by name. */
  function SortByName(rows: seq<MemberRow>): seq<MemberRow> {
    if rows == [] then [] else Insert(rows[|rows| - 1], SortByName(rows[..|rows| - 1]))
  }

  /** The rows named `name`, in order. */
  function Named(rows: seq<MemberRow>, name: string): seq<MemberRow> {
    if rows == [] then []
    else Named(rows[..|rows| - 1], name) + (if rows[|rows| - 1].name == name then [rows[|rows| - 1]] else [])
  }

  lemma {:induction false} NamedConcat(a: seq<MemberRow>, b: seq<MemberRow>, name: string)
    ensures Named(a + b, name) == Named(a, name) + Named(b, name)
    decreases |b|
  {
    if b != [] {
      var n := |b| - 1;
      var tail := if b[n].name == name then [b[n]] else [];
      assert (a + b)[..|a + b| - 1] == a + b[..n];
      assert (a + b)[|a + b| - 1] == b[n];
      NamedConcat(a, b[..n], name);
      calc {
        Named(a + b, name);
        Named(a + b[..n], name) + tail;
        Named(a, name) + Named(b[..n], name) + tail;
        Named(a, name) + (Named(b[..n], name) + tail);
      }
    } else {
      assert a + b == a;
    }
  }

  lemma {:induction false} InsertPermutes(x: MemberRow, rows: seq<MemberRow>)
    ensures multiset(Insert(x, rows)) == multiset(rows) + multiset{x}
  {
    if rows != [] && !LessEq(rows[|rows| - 1].name, x.name) {
      var n := |rows| - 1;
      InsertPermutes(x, rows[..n]);
      assert rows == rows[..n] + [rows[n]];
    }
  }

  lemma {:induction false} InsertKeepsSorted(x: MemberRow, rows: seq<MemberRow>)
    requires SortedByName(rows)
    ensures SortedByName(Insert(x, rows))
  {
    if rows == [] {
    } else if LessEq(rows[|rows| - 1].name, x.name) {
      var n := |rows| - 1;
      forall i | 0 <= i < n
        ensures LessEq(rows[i].name, x.name)
      {
        LessEqTransitive(rows[i].name, rows[n].name, x.name);
      }
    } else {
      var n := |rows| - 1;
      var init := rows[..n];
      InsertKeepsSorted(x, init);
      InsertPermutes(x, init);
      var ins := Insert(x, init);
      LessEqTotal(rows[n].name, x.name);
      forall i | 0 <= i < |ins|
        ensures LessEq(ins[i].name, rows[n].name)
      {
        assert ins[i] in multiset(ins);
        if ins[i] != x {
          assert ins[i] in multiset(init);
          var k :| 0 <= k < n && init[k] == ins[i];
        }
      }
    }
  }

  lemma {:induction false} InsertKeepsOrderOfEquals(x: MemberRow, rows: seq<MemberRow>, name: string)
    ensures Named(Insert(x, rows), name) == Named(rows, name) + Named([x], name)
  {
    if rows == [] || LessEq(rows[|rows| - 1].name, x.name) {
      NamedConcat(rows, [x], name);
    } else {
      var n := |rows| - 1;
      var init := rows[..n];
      var last := rows[n];
      assert Insert(x, rows) == Insert(x, init) + [last];
      assert rows == init + [last];
      InsertKeepsOrderOfEquals(x, init, name);
      NamedConcat(Insert(x, init), [last], name);
      NamedConcat(init, [last], name);
      LessEqReflexive(x.name);
      assert last.name != x.name;
      assert Named([last], name) == [] || Named([x], name) == [];
    }
  }

  /** The sorted list is ordered nondecreasing by name. */
  lemma {:induction false} SortSorts(rows: seq<MemberRow>)
    ensures SortedByName(SortByName(rows))
  {
    if rows != [] {
      SortSorts(rows[..|rows| - 1]);
      InsertKeepsSorted(rows[|rows| - 1], SortByName(rows[..|rows| - 1]));
    }
  }

  /** The sorted list holds exactly the rows given, each as often. */
  lemma {:induction false} SortPermutes(rows: seq<MemberRow>)
    ensures multiset(SortByName(rows)) == multiset(rows)
  {
    if rows != [] {
      var n := |rows| - 1;
      SortPermutes(rows[..n]);
      InsertPermutes(rows[n], SortByName(rows[..n]));
      assert rows == rows[..n] + [rows[n]];
    }
  }

  /** Rows with equal names keep their fetched order. */
  lemma {:induction false} SortIsStable(rows: seq<MemberRow>, name: string)
    ensures Named(SortByName(rows), name) == Named(rows, name)
  {
    if rows != [] {
      var n := |rows| - 1;
      SortIsStable(rows[..n], name);
      InsertKeepsOrderOfEquals(rows[n], SortByName(rows[..n]), name);
    }
  }

  /** One shift of the insertion loop: moving past a row named after `x`. */
  lemma InsertStep(x: MemberRow, p: seq<MemberRow>, j: int)
    requires 0 < j <= |p| && !LessEq(p[j - 1].name, x.name)
    ensures Insert(x, p[..j]) + p[j..] == Insert(x, p[..j - 1]) + p[j - 1..]
  {
    assert p[..j][..j - 1] == p[..j - 1];
    assert p[j - 1..] == [p[j - 1]] + p[j..];
  }

  /** Where the insertion loop stops, `x` goes right after the rows before it. */
  lemma InsertStop(x: MemberRow, p: seq<MemberRow>, j: int)
    requires 0 <= j <= |p| && (j == 0 || LessEq(p[j - 1].name, x.name))
    ensures Insert(x, p[..j]) == p[..j] + [x]
  {
  }

  /**
   * One pass of the sort: with `a[..i]` in order, moves `a[i]` back past the
   * rows named after it, leaving the rest of the array alone.
   */
  method InsertAt(a: array<MemberRow>, i: int)
    requires 0 <= i < a.Length
    modifies a
    ensures a[..i + 1] == Insert(old(a[i]), old(a[..i]))
    ensures forall k :: i < k < a.Length ==> a[k] == old(a[k])
  {
    ghost var p := a[..i];
    var x := a[i];
    var j := i;
    assert p[..j] == p && p[j..] == [];
    while j > 0 && !LessEq(a[j - 1].name, x.name)
      invariant 0 <= j <= i
      invariant forall k :: 0 <= k < j ==> a[k] == p[k]
      invariant forall k :: j < k <= i ==> a[k] == p[k - 1]
      invariant forall k :: i < k < a.Length ==> a[k] == old(a[k])
      invariant Insert(x, p) == Insert(x, p[..j]) + p[j..]
    {
      InsertStep(x, p, j);
      a[j] := a[j - 1];
      j := j - 1;
    }
    InsertStop(x, p, j);
    a[j] := x;
    ghost var q := p[..j] + [x] + p[j..];
    forall k | 0 <= k <= i
      ensures a[k] == q[k]
    {
      if k < j {
        assert q[k] == p[k];
      } else if k > j {
        assert q[k] == p[k - 1];
      }
    }
    assert a[..i + 1] == q;
  }

  /** `result.sort(key=lambda m: m["name"])`, in place. */
  method SortRows(a: array<MemberRow>)
    modifies a
    ensures a[..] == SortByName(old(a[..]))
  {
    ghost var s := a[..];
    var i := 0;
    while i < a.Length
      invariant 0 <= i <= a.Length
      invariant a[..i] == SortByName(s[..i])
      invariant forall k :: i <= k < a.Length ==> a[k] == s[k]
    {
      InsertAt(a, i);
      assert s[..i + 1][..i] == s[..i];
      i := i + 1;
    }
    assert a[..] == a[..a.Length];
    assert s == s[..a.Length];
  }

  /**
   * The listing the handler serializes: one row per fetched member, sorted by
   * name, stably.
   */
  method ListMembers(members: seq<Record>) returns (result: seq<MemberRow>)
    ensures result == SortByName(Projected(members))
    ensures |result| == |members|
    ensures multiset(result) == multiset(Projected(members))
    ensures SortedByName(result)
  {
    var rows := Projected(members);
    var a := new MemberRow[|rows|](i requires 0 <= i < |rows| => rows[i]);
    assert a[..] == rows;
    SortRows(a);
    result := a[..];
    SortSorts(rows);
    SortPermutes(rows);
    assert |result| == |rows| by {
      assert |multiset(result)| == |multiset(rows)|;
    }
  }
}
