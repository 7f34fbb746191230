/**
 * The filtering loop of query-bench's `loadQueries`: every line of the query
 * file is trimmed, and the lines that are not empty after trimming become the
 * query templates, in file order. The lines are taken as already read.
 */
module QueryLoader {
  import opened Strings

  /** The templates that the lines `lines` yield, built from the last line backwards. */
  function Templates(lines: seq<string>): (r: seq<string>)
    ensures |r| <= |lines|
    ensures forall j :: 0 <= j < |r| ==> IsTemplate(r[j])
  {
    if lines == [] then []
    else
      var rest := Templates(lines[..|lines| - 1]);
      var t := TrimSpace(lines[|lines| - 1]);
      if t == [] then rest
      else
        TrimSpaceIdempotent(lines[|lines| - 1]);
        rest + [t]
  }

  /** A loaded template is never empty and has nothing left to trim. */
  predicate IsTemplate(q: string) {
    q != [] && TrimSpace(q) == q
  }

  /** The loop at query-bench.go:112-117, over the lines the scanner yields. */
  method LoadQueries(lines: seq<string>) returns (queries: seq<string>)
    ensures queries == Templates(lines)
  {
    queries := [];
    for n := 0 to |lines|
      invariant queries == Templates(lines[..n])
    {
      assert lines[..n + 1][..n] == lines[..n];
      var line := TrimSpace(lines[n]);
      if line != [] {
        queries := queries + [line];
      }
    }
    assert lines[..|lines|] == lines;
  }

  predicate Blank(line: string) {
    TrimSpace(line) == []
  }

  /** The indices of the lines that are not blank, in increasing order. */
  function Origins(lines: seq<string>): (r: seq<nat>)
    ensures |r| <= |lines|
    ensures forall j :: 0 <= j < |r| ==> r[j] < |lines|
  {
    if lines == [] then []
    else
      var rest := Origins(lines[..|lines| - 1]);
      if Blank(lines[|lines| - 1]) then rest else rest + [|lines| - 1]
  }

  /** The j-th template is the trimmed text of the j-th non-blank line. */
  lemma {:induction false} TemplatesFollowOrigins(lines: seq<string>)
    ensures |Templates(lines)| == |Origins(lines)|
    ensures forall j :: 0 <= j < |Origins(lines)| ==>
              Templates(lines)[j] == TrimSpace(lines[Origins(lines)[j]])
  {
    if lines != [] {
      var init := lines[..|lines| - 1];
      TemplatesFollowOrigins(init);
      var r, rp, o, op := Templates(lines), Templates(init), Origins(lines), Origins(init);
      forall j | 0 <= j < |op| ensures lines[op[j]] == init[op[j]] { }
      if !Blank(lines[|lines| - 1]) {
        assert r == rp + [TrimSpace(lines[|lines| - 1])];
        assert o == op + [|lines| - 1];
        forall j | 0 <= j < |o| ensures r[j] == TrimSpace(lines[o[j]]) {
          if j < |op| { assert r[j] == rp[j] && o[j] == op[j]; }
        }
      }
    }
  }

  /** The templates keep the order of the lines they come from. */
  lemma {:induction false} OriginsIncrease(lines: seq<string>)
    ensures forall j, k :: 0 <= j < k < |Origins(lines)| ==> Origins(lines)[j] < Origins(lines)[k]
  {
    if lines != [] {
      var init := lines[..|lines| - 1];
      OriginsIncrease(init);
      var o, op := Origins(lines), Origins(init);
      if !Blank(lines[|lines| - 1]) {
        assert o == op + [|lines| - 1];
        forall j, k | 0 <= j < k < |o| ensures o[j] < o[k] {
          if k < |op| { assert o[j] == op[j] && o[k] == op[k]; }
          else { assert o[j] == op[j] < |init|; }
        }
      }
    }
  }

  /** The last line adds its own index to the origins exactly when it is not blank. */
  lemma OriginsSnoc(lines: seq<string>)
    requires lines != []
    ensures forall i :: i in Origins(lines) <==>
              (i in Origins(lines[..|lines| - 1]) || (i == |lines| - 1 && !Blank(lines[|lines| - 1])))
  {
  }

  /** A line yields a template exactly when it is not blank. */
  lemma {:induction false} OriginsAreNonBlank(lines: seq<string>)
    ensures forall i :: 0 <= i < |lines| ==> (i in Origins(lines) <==> !Blank(lines[i]))
  {
    if lines != [] {
      var init, last := lines[..|lines| - 1], |lines| - 1;
      OriginsAreNonBlank(init);
      OriginsSnoc(lines);
      forall i | 0 <= i < |lines| ensures i in Origins(lines) <==> !Blank(lines[i]) {
        if i < last {
          assert lines[i] == init[i];
        }
      }
    }
  }

  /** Lines that are blank after trimming do not change the templates. */
  lemma {:induction false} BlankLinesIgnored(lines: seq<string>, blank: string)
    requires Blank(blank)
    ensures Templates(lines + [blank]) == Templates(lines)
  {
    assert (lines + [blank])[..|lines|] == lines;
  }

  /** A line with no white space at either end is kept exactly as it is. */
  lemma {:induction false} TrimmedLineKept(lines: seq<string>, line: string)
    requires line != [] && Trimmed(line)
    ensures Templates(lines + [line]) == Templates(lines) + [line]
  {
    assert (lines + [line])[..|lines|] == lines;
    TrimSpaceUnique(line, [], line, []);
  }

  /**
   * The file of four lines: two spaces, `up{instance="host-0"}`, an empty
   * line and `rate(foo[5m])` yields exactly the second and the fourth.
   */
  lemma FourLineFile()
    ensures Templates(["  ", "up{instance=\"host-0\"}", "", "rate(foo[5m])"])
         == ["up{instance=\"host-0\"}", "rate(foo[5m])"]
  {
    var up, rate := "up{instance=\"host-0\"}", "rate(foo[5m])";
    var l1 := [] + ["  "];
    var l2 := l1 + [up];
    var l3 := l2 + [""];
    var l4 := l3 + [rate];
    assert TrimSpace("  ") == [];
    assert up[0] == 'u' && up[|up| - 1] == '}' && rate[0] == 'r' && rate[|rate| - 1] == ')';
    BlankLinesIgnored([], "  ");
    TrimmedLineKept(l1, up);
    BlankLinesIgnored(l2, "");
    TrimmedLineKept(l3, rate);
    assert l4 == ["  ", up, "", rate];
  }
}
