/**
 * The submit handler of the add/edit dialog (components/AddTaskModal.tsx):
 * a title that is empty after trimming is refused, anything else goes to
 * `addTask` untrimmed, with the id of the task being edited, if any.
 */
module Modal {
  import opened Wrappers
  import opened Types
  import opened Store

  /**
   * The characters JavaScript's `String.prototype.trim` strips: the
   * WhiteSpace and LineTerminator code points of ECMAScript, including
   * every Unicode space separator (category Zs).
   */
  predicate IsJsWhitespace(c: char)
  {
    c == '\t' || c == '\U{B}' || c == '\U{C}' || c == ' ' || c == '\U{A0}' || c == '\U{FEFF}'
    || c == '\n' || c == '\r' || c == '\U{2028}' || c == '\U{2029}'
    || c == '\U{1680}' || ('\U{2000}' <= c <= '\U{200A}') || c == '\U{202F}' || c == '\U{205F}' || c == '\U{3000}'
  }

  /** The title consists of whitespace only (or nothing at all). */
  predicate IsBlank(s: string)
  {
    forall i :: 0 <= i < |s| ==> IsJsWhitespace(s[i])
  }

  /** Strips leading whitespace. */
  function TrimStart(s: string): (r: string)
    ensures |r| <= |s| && r == s[|s| - |r|..]
    ensures r == [] || !IsJsWhitespace(r[0])
    ensures IsBlank(s[..|s| - |r|])
  {
    if s != [] && IsJsWhitespace(s[0]) then
      var r := TrimStart(s[1..]);
      assert s[..|s| - |r|] == [s[0]] + s[1..][..|s| - 1 - |r|];
      r
    else s
  }

  /** Strips trailing whitespace. */
  function TrimEnd(s: string): (r: string)
    ensures |r| <= |s| && r == s[..|r|]
    ensures r == [] || !IsJsWhitespace(r[|r| - 1])
    ensures s != [] && !IsJsWhitespace(s[0]) ==> r != []
    ensures IsBlank(s[|r|..])
  {
    if s != [] && IsJsWhitespace(s[|s| - 1]) then
      var r := TrimEnd(s[..|s| - 1]);
      assert s[..|s| - 1][..|r|] == s[..|r|];
      assert s[|r|..] == s[..|s| - 1][|r|..] + [s[|s| - 1]];
      r
    else s
  }

  /**
   * Cutting a blank prefix off `s` and then a blank suffix off what is left
   * leaves a middle slice of `s` with blank text on either side.
   */
  lemma TrimSlice(s: string, i: nat, r: string)
    requires i <= |s| && IsBlank(s[..i])
    requires |r| <= |s| - i && r == s[i..][..|r|] && IsBlank(s[i..][|r|..])
    ensures r == s[i..i + |r|]
    ensures IsBlank(s[i + |r|..])
  {
    assert s[i + |r|..] == s[i..][|r|..];
  }

  /** A slice between two blank stretches is empty only when all of `s` is blank. */
  lemma TrimBlank(s: string, i: nat, r: string)
    requires i <= |s| && IsBlank(s[..i]) && (i < |s| ==> !IsJsWhitespace(s[i]))
    requires |r| <= |s| - i && (i < |s| ==> r != [])
    ensures r == [] <==> IsBlank(s)
  {
    if i == |s| {
      assert s[..i] == s;
    } else {
      assert !IsJsWhitespace(s[i]);
    }
  }

  /** A non-empty prefix of a string that starts with a non-whitespace character starts with it too. */
  lemma TrimEdges(u: string, r: string)
    requires u == [] || !IsJsWhitespace(u[0])
    requires |r| <= |u| && r == u[..|r|] && (r == [] || !IsJsWhitespace(r[|r| - 1]))
    ensures r == [] || (!IsJsWhitespace(r[0]) && !IsJsWhitespace(r[|r| - 1]))
  {
    if r != [] {
      assert r[0] == u[0];
    }
  }

  /**
   * `String.prototype.trim`: strips leading and trailing whitespace. The
   * result is empty exactly when `s` is blank.
   */
  function Trim(s: string): (r: string)
    ensures r == [] || (!IsJsWhitespace(r[0]) && !IsJsWhitespace(r[|r| - 1]))
    ensures r == [] <==> IsBlank(s)
  {
    var u := TrimStart(s);
    var r := TrimEnd(u);
    TrimBlank(s, |s| - |u|, r);
    TrimEdges(u, r);
    r
  }

  /** The trimmed title is a middle slice of the title with only whitespace around it. */
  lemma TrimMiddle(s: string)
    ensures exists i :: 0 <= i <= |s| - |Trim(s)| && Trim(s) == s[i..i + |Trim(s)|]
                        && IsBlank(s[..i]) && IsBlank(s[i + |Trim(s)|..])
  {
    var u := TrimStart(s);
    var r := TrimEnd(u);
    var i := |s| - |u|;
    TrimSlice(s, i, r);
    assert Trim(s) == r;
  }

  /**
   * `handleSubmit`: a blank title leaves the list alone; otherwise the
   * title and category are saved through `addTask`, editing when the
   * dialog was opened on an existing task.
   */
  function Submit(tasks: seq<Task>, title: string, category: Category, editingId: Option<string>,
                  freshId: string, now: int): (r: seq<Task>)
    ensures IsBlank(title) ==> r == tasks
    ensures !IsBlank(title) ==> r == AddTask(tasks, title, category, editingId, freshId, now)
  {
    if Trim(title) == [] then tasks else AddTask(tasks, title, category, editingId, freshId, now)
  }

  /** No task has a blank title. */
  ghost predicate NonBlankTitles(tasks: seq<Task>)
  {
    forall i :: 0 <= i < |tasks| ==> !IsBlank(tasks[i].title)
  }

  /** Submitting through the dialog never stores a blank title. */
  lemma SubmitKeepsTitles(tasks: seq<Task>, title: string, category: Category, editingId: Option<string>,
                          freshId: string, now: int)
    requires NonBlankTitles(tasks)
    ensures NonBlankTitles(Submit(tasks, title, category, editingId, freshId, now))
  {
    var r := Submit(tasks, title, category, editingId, freshId, now);
    if !IsBlank(title) && !Truthy(editingId) {
      forall i | 0 <= i < |r| ensures !IsBlank(r[i].title) {
        if i > 0 { assert r[i] == tasks[i - 1]; }
      }
    }
  }
}
