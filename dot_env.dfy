/**
 * The local server's `.env` loader: each line of the file, stripped, that is
 * non-empty, not a comment and contains `=` is split at its first `=`, and the
 * stripped key and value are handed to `os.environ.setdefault`, so variables
 * already in the environment, and the first assignment in the file, win.
 */
module DotEnv {
  import opened PyValues

  /** The process environment: variable name to value. */
  type Env = map<string, string>

  /** The position of the first `c` in `s`. */
  function FirstIndex(s: string, c: char): (r: nat)
    requires c in s
    ensures r < |s| && s[r] == c && c !in s[..r]
  {
    if s[0] == c then 0 else 1 + FirstIndex(s[1..], c)
  }

  /**
   * One line of the loop: `line.strip()`, skipped when empty, a comment, or
   * without `=`; otherwise `line.split("=", 1)` with both halves stripped.
   */
  function ParseLine(line: string): Option<(string, string)> {
    var t := Strip(line);
    if t == [] || t[0] == '#' || '=' !in t then None
    else
      var p := FirstIndex(t, '=');
      Some((Strip(t[..p]), Strip(t[p + 1..])))
  }

  lemma SplitAround(t: string, p: nat)
    requires p < |t|
    ensures t == t[..p] + [t[p]] + t[p + 1..]
  {
  }

  /** Every character of `s.strip()` is a character of `s`. */
  lemma StripSubset(s: string, c: char)
    requires c in Strip(s)
    ensures c in s
  {
    StripSplits(s);
  }

  /**
   * A line is skipped exactly when, stripped, it is blank, starts with `#` or
   * has no `=`; otherwise the stripped line is `a + "=" + b` with no `=` in
   * `a`, the key is `a` stripped and the value `b` stripped, so the key never
   * holds `=` while the value may.
   */
  lemma ParseLineMeaning(line: string)
    ensures ParseLine(line).None? <==>
              Strip(line) == [] || Strip(line)[0] == '#' || '=' !in Strip(line)
    ensures ParseLine(line).Some? ==>
              exists a, b :: Strip(line) == a + ['='] + b && '=' !in a
                             && ParseLine(line).value == (Strip(a), Strip(b))
    ensures ParseLine(line).Some? ==> '=' !in ParseLine(line).value.0
  {
    var t := Strip(line);
    if ParseLine(line).Some? {
      var p := FirstIndex(t, '=');
      var a, b := t[..p], t[p + 1..];
      SplitAround(t, p);
      if '=' in Strip(a) {
        StripSubset(a, '=');
      }
    }
  }

  // ---------------------------------------------------------------------------
  // os.environ.setdefault
  // ---------------------------------------------------------------------------

  /**
   * What `putenv` raises on a POSIX system for a name or value it cannot set:
   * ValueError for an embedded NUL in either or an `=` in the name, checked by
   * Python itself; OSError (EINVAL) for an empty name, which Python hands to
   * `setenv` and `setenv` refuses.
   */
  function PutenvError(key: string, value: string): Option<Error> {
    if '\0' in key || '\0' in value then Some(ValueError("embedded null byte"))
    else if '=' in key then Some(ValueError("illegal environment variable name"))
    else if key == [] then Some(OSError("[Errno 22] Invalid argument"))
    else None
  }

  /** `os.environ.setdefault(key, value)`: assigns only a variable not yet set. */
  function SetDefault(env: Env, key: string, value: string): (r: Result<Env>)
    ensures key in env ==> r == Ok(env)
    ensures key !in env && PutenvError(key, value).None? ==> r == Ok(env[key := value])
    ensures key !in env && PutenvError(key, value).Some? ==> r == Err(PutenvError(key, value).value)
  {
    if key in env then Ok(env)
    else match PutenvError(key, value)
      case Some(e) => Err(e)
      case None => Ok(env[key := value])
  }

  /** What a line asks for: nothing, or a (key, value) pair for `setdefault`. */
  type Assignment = Option<(string, string)>

  /** The assignments of the lines, in file order. */
  function Parsed(lines: seq<string>): (r: seq<Assignment>)
    ensures |r| == |lines|
    ensures forall i :: 0 <= i < |lines| ==> r[i] == ParseLine(lines[i])
  {
    if lines == [] then [] else Parsed(lines[..|lines| - 1]) + [ParseLine(lines[|lines| - 1])]
  }

  lemma ParsedPrefix(lines: seq<string>, k: nat)
    requires k <= |lines|
    ensures Parsed(lines)[..k] == Parsed(lines[..k])
  {
    assert forall i :: 0 <= i < k ==> lines[..k][i] == lines[i];
  }

  /** The environment after `setdefault` for each assignment in turn, or the first error. */
  function Assign(env: Env, assignments: seq<Assignment>): Result<Env> {
    if assignments == [] then Ok(env)
    else
      var last := assignments[|assignments| - 1];
      match Assign(env, assignments[..|assignments| - 1])
      case Err(e) => Err(e)
      case Ok(m) => if last.None? then Ok(m) else SetDefault(m, last.value.0, last.value.1)
  }

  /** The environment after the loop has run over `lines`, or the error that stopped it. */
  function Loaded(env: Env, lines: seq<string>): Result<Env> {
    Assign(env, Parsed(lines))
  }

  /** The variables the assignments set. */
  ghost function AssignedKeys(assignments: seq<Assignment>): set<string> {
    set i | 0 <= i < |assignments| && assignments[i].Some? :: assignments[i].value.0
  }

  /** Loading only ever adds variables, and a variable already set keeps its value. */
  lemma {:induction false} AssignKeepsExisting(env: Env, assignments: seq<Assignment>)
    requires Assign(env, assignments).Ok?
    ensures forall k :: k in env ==> k in Assign(env, assignments).value && Assign(env, assignments).value[k] == env[k]
  {
    if assignments != [] {
      AssignKeepsExisting(env, assignments[..|assignments| - 1]);
    }
  }

  /** After loading, the variables set are those set before plus those the file assigns. */
  lemma {:induction false} AssignKeys(env: Env, assignments: seq<Assignment>)
    requires Assign(env, assignments).Ok?
    ensures Assign(env, assignments).value.Keys == env.Keys + AssignedKeys(assignments)
  {
    if assignments != [] {
      var n := |assignments| - 1;
      var init := assignments[..n];
      AssignKeys(env, init);
      assert forall i :: 0 <= i < n ==> init[i] == assignments[i];
      if assignments[n].Some? {
        assert AssignedKeys(assignments) == AssignedKeys(init) + {assignments[n].value.0};
      } else {
        assert AssignedKeys(assignments) == AssignedKeys(init);
      }
    }
  }

  /**
   * A variable not in the environment takes the value of the first assignment
   * to it; later assignments are ignored.
   */
  lemma {:induction false} AssignFirstWins(env: Env, assignments: seq<Assignment>, i: int)
    requires Assign(env, assignments).Ok?
    requires 0 <= i < |assignments| && assignments[i].Some?
    requires assignments[i].value.0 !in env
    requires forall j :: 0 <= j < i && assignments[j].Some? ==> assignments[j].value.0 != assignments[i].value.0
    ensures var (k, v) := assignments[i].value;
            k in Assign(env, assignments).value && Assign(env, assignments).value[k] == v
  {
    var n := |assignments| - 1;
    var init := assignments[..n];
    if i < n {
      assert init[i] == assignments[i];
      assert forall j :: 0 <= j < i ==> init[j] == assignments[j];
      AssignFirstWins(env, init, i);
      AssignKeepsExisting(Assign(env, init).value, assignments[n..]);
      assert Assign(env, init).value == Assign(env, assignments[..n]).value;
    } else {
      AssignKeys(env, init);
      assert assignments[i].value.0 !in AssignedKeys(init) by {
        forall j | 0 <= j < n && init[j].Some?
          ensures init[j].value.0 != assignments[i].value.0
        {
          assert init[j] == assignments[j];
        }
      }
    }
  }

  /**
   * Loading stops only with a ValueError or, for an empty name, an OSError,
   * and never when every assignment is to a legal name with a legal value.
   */
  lemma {:induction false} AssignFails(env: Env, assignments: seq<Assignment>)
    ensures Assign(env, assignments).Err? ==>
              Assign(env, assignments).error.ValueError? || Assign(env, assignments).error.OSError?
    ensures Assign(env, assignments).Err? && Assign(env, assignments).error.OSError? ==>
              exists i :: 0 <= i < |assignments| && assignments[i].Some? && assignments[i].value.0 == []
    ensures (forall i :: 0 <= i < |assignments| && assignments[i].Some? ==>
               PutenvError(assignments[i].value.0, assignments[i].value.1).None?)
            ==> Assign(env, assignments).Ok?
  {
    if assignments != [] {
      var n := |assignments| - 1;
      AssignFails(env, assignments[..n]);
      assert forall i :: 0 <= i < n ==> assignments[..n][i] == assignments[i];
    }
  }

  /** Taking one more assignment applies it to what the earlier ones produced. */
  lemma AssignStep(env: Env, assignments: seq<Assignment>, k: nat)
    requires k < |assignments|
    ensures Assign(env, assignments[..k + 1]) ==
              match Assign(env, assignments[..k])
              case Err(e) => Err(e)
              case Ok(m) =>
                if assignments[k].None? then Ok(m)
                else SetDefault(m, assignments[k].value.0, assignments[k].value.1)
  {
    assert assignments[..k + 1][..k] == assignments[..k];
  }

  /** Once a prefix of the assignments fails, the whole list does, with the same error. */
  lemma {:induction false} AssignStops(env: Env, assignments: seq<Assignment>, k: nat)
    requires k <= |assignments| && Assign(env, assignments[..k]).Err?
    ensures Assign(env, assignments) == Assign(env, assignments[..k])
    decreases |assignments|
  {
    if k < |assignments| {
      var n := |assignments| - 1;
      assert assignments[..n][..k] == assignments[..k];
      AssignStops(env, assignments[..n], k);
    } else {
      assert assignments[..k] == assignments;
    }
  }

  /** `os.environ`, changed in place by the loader. */
  class Environment {
    var vars: Env

    constructor (initial: Env)
      ensures vars == initial
    {
      vars := initial;
    }

    /** `os.environ.setdefault(key, value)`; `err` is the ValueError raised, if any. */
    method SetDefaultVar(key: string, value: string) returns (err: Option<Error>)
      modifies this
      ensures SetDefault(old(vars), key, value).Ok? ==> err.None? && vars == SetDefault(old(vars), key, value).value
      ensures SetDefault(old(vars), key, value).Err? ==>
                err == Some(SetDefault(old(vars), key, value).error) && vars == old(vars)
    {
      if key in vars {
        return None;
      }
      err := PutenvError(key, value);
      if err.None? {
        vars := vars[key := value];
      }
    }

    /**
     * The loop over the file's lines. A ValueError ends it, leaving the
     * assignments of the lines before in place.
     */
    method LoadDotEnv(lines: seq<string>) returns (err: Option<Error>)
      modifies this
      ensures Loaded(old(vars), lines).Ok? ==> err.None? && vars == Loaded(old(vars), lines).value
      ensures Loaded(old(vars), lines).Err? ==> err == Some(Loaded(old(vars), lines).error)
      ensures err.Some? ==> exists k :: 0 <= k < |lines| && Loaded(old(vars), lines[..k]) == Ok(vars)
                                          && Loaded(old(vars), lines[..k + 1]) == Err(err.value)
    {
      ghost var env := vars;
      ghost var assignments := Parsed(lines);
      var k := 0;
      while k < |lines|
        invariant 0 <= k <= |lines|
        invariant Assign(env, assignments[..k]) == Ok(vars)
      {
        AssignStep(env, assignments, k);
        var parsed := ParseLine(lines[k]);
        assert assignments[k] == parsed;
        if parsed.Some? {
          err := SetDefaultVar(parsed.value.0, parsed.value.1);
          if err.Some? {
            AssignStops(env, assignments, k + 1);
            ParsedPrefix(lines, k);
            ParsedPrefix(lines, k + 1);
            assert Loaded(env, lines[..k]) == Ok(vars);
            assert Loaded(env, lines[..k + 1]) == Err(err.value);
            return;
          }
        }
        k := k + 1;
      }
      assert assignments[..k] == assignments;
      err := None;
    }
  }
}
