/** The configuration decision of app/db/db.py: which database URL the
    session is bound to. The URLs come from the environment variables
    `DB_URL` and `DB_TEST_URL`; the test URL is chosen when the program name
    `argv[0]` mentions pytest, and a missing choice is a fatal error with no
    fallback to the other URL. */
module DbConfig {
  import opened Outcomes

  /** The process environment: variable names to values. */
  type Environment = map<string, string>

  /** `getenv(key, default=None)`. */
  function GetEnv(env: Environment, key: string): (v: Option<string>)
    ensures v.Some? <==> key in env
    ensures v.Some? ==> v.value == env[key]
  {
    if key in env then Some(env[key]) else None
  }

  /** The two module-level constants `DB_URL` and `DB_TEST_URL`. */
  datatype Settings = Settings(dbUrl: Option<string>, dbTestUrl: Option<string>)

  /** Reads both URLs from the environment at import time. */
  function LoadSettings(env: Environment): (s: Settings)
    ensures s.dbUrl.Some? <==> "DB_URL" in env
    ensures s.dbTestUrl.Some? <==> "DB_TEST_URL" in env
    ensures "DB_URL" in env ==> s.dbUrl.value == env["DB_URL"]
    ensures "DB_TEST_URL" in env ==> s.dbTestUrl.value == env["DB_TEST_URL"]
  {
    Settings(GetEnv(env, "DB_URL"), GetEnv(env, "DB_TEST_URL"))
  }

  /** `p` occurs in `s` starting at index `i`. */
  ghost predicate OccursAt(s: string, p: string, i: nat) {
    i + |p| <= |s| && s[i..i + |p|] == p
  }

  /** Python's substring test `p in s`. */
  predicate Contains(s: string, p: string)
    decreases |s|
  {
    if p <= s then true
    else if |s| == 0 then false
    else Contains(s[1..], p)
  }

  /** `Contains` is the substring relation: `p in s` holds exactly when `p`
      occurs in `s` at some index. */
  lemma {:induction false} ContainsIffOccurs(s: string, p: string)
    ensures Contains(s, p) <==> exists i :: OccursAt(s, p, i)
    decreases |s|
  {
    if p <= s {
      assert s[0..|p|] == p;
      assert OccursAt(s, p, 0);
    } else if |s| == 0 {
      assert |p| > 0;
    } else {
      ContainsIffOccurs(s[1..], p);
      forall i: nat | OccursAt(s[1..], p, i)
        ensures OccursAt(s, p, i + 1)
      {
        OccursShift(s, p, i);
      }
      forall i: nat | OccursAt(s, p, i) && i > 0
        ensures OccursAt(s[1..], p, i - 1)
      {
        OccursShift(s, p, i - 1);
      }
      assert !OccursAt(s, p, 0) by {
        if |p| <= |s| {
          assert s[0..|p|] == s[..|p|];
        }
      }
    }
  }

  /** An occurrence in the tail is an occurrence one index later in the
      whole string, and conversely. */
  lemma OccursShift(s: string, p: string, i: nat)
    requires |s| > 0
    ensures OccursAt(s[1..], p, i) <==> OccursAt(s, p, i + 1)
  {
    if i + 1 + |p| <= |s| {
      assert s[1..][i..i + |p|] == s[i + 1..i + 1 + |p|];
    }
  }

  /** The marker looked for in the program name. */
  const PytestMarker: string := "pytest"

  /** The message of the `EnvironmentError` raised for a missing URL. */
  const MissingUrlMessage: string :=
    "\nSet the \"DB_URL\" and/or \"DB_TEST_URL\" environment variables\n"

  /** The message of the `IndexError` raised by `argv[0]` on an empty list. */
  const NoArgvMessage: string := "list index out of range"

  /** The URL `_create_session` binds its engine to, or the exception it
      raises before reaching the engine. */
  function SelectDbUrl(argv: seq<string>, s: Settings): (r: Result<string, PyError>)
    ensures |argv| == 0 ==> r == Failure(IndexError(NoArgvMessage))
    ensures |argv| > 0 && Contains(argv[0], PytestMarker) ==>
      r == (if s.dbTestUrl.Some? then Success(s.dbTestUrl.value)
            else Failure(EnvironmentError(MissingUrlMessage)))
    ensures |argv| > 0 && !Contains(argv[0], PytestMarker) ==>
      r == (if s.dbUrl.Some? then Success(s.dbUrl.value)
            else Failure(EnvironmentError(MissingUrlMessage)))
  {
    if |argv| == 0 then
      Failure(IndexError(NoArgvMessage))
    else
      var chosen := if Contains(argv[0], PytestMarker) then s.dbTestUrl else s.dbUrl;
      match chosen
      case None => Failure(EnvironmentError(MissingUrlMessage))
      case Some(url) => Success(url)
  }

  /** The URL the session would be bound to, for a given program name and
      environment. */
  function SessionUrl(argv: seq<string>, env: Environment): (r: Result<string, PyError>)
    ensures r.Success? ==>
      || ("DB_URL" in env && r.value == env["DB_URL"])
      || ("DB_TEST_URL" in env && r.value == env["DB_TEST_URL"])
    ensures r.Failure? ==> r.error.IndexError? || r.error.EnvironmentError?
  {
    SelectDbUrl(argv, LoadSettings(env))
  }

  /** The URL that is not selected plays no part: there is no fallback, and
      a present but unselected URL cannot rescue a missing selected one. */
  lemma NoFallback(argv: seq<string>, url: Option<string>, testUrl: Option<string>, other: Option<string>)
    requires |argv| > 0
    ensures Contains(argv[0], PytestMarker) ==>
      SelectDbUrl(argv, Settings(url, testUrl)) == SelectDbUrl(argv, Settings(other, testUrl))
    ensures !Contains(argv[0], PytestMarker) ==>
      SelectDbUrl(argv, Settings(url, testUrl)) == SelectDbUrl(argv, Settings(url, other))
  {
  }

  /** Selection fails exactly when the selected variable is unset, and on
      success hands on exactly the value of the selected variable. */
  lemma SessionUrlSucceedsIff(argv: seq<string>, env: Environment)
    requires |argv| > 0
    ensures var key := if Contains(argv[0], PytestMarker) then "DB_TEST_URL" else "DB_URL";
      && (SessionUrl(argv, env).Success? <==> key in env)
      && (key in env ==> SessionUrl(argv, env).value == env[key])
      && (key !in env ==> SessionUrl(argv, env) == Failure(EnvironmentError(MissingUrlMessage)))
  {
  }

  /** With neither variable set, both URLs are `None` and every program
      name leads to the `EnvironmentError`. */
  lemma UnsetEnvironmentFails(argv: seq<string>, env: Environment)
    requires |argv| > 0
    requires "DB_URL" !in env && "DB_TEST_URL" !in env
    ensures LoadSettings(env) == Settings(None, None)
    ensures SessionUrl(argv, env) == Failure(EnvironmentError(MissingUrlMessage))
  {
  }

  /** Run under pytest, the test URL is bound; run as a script, the
      production URL is, whatever the test URL. */
  lemma ProgramNameSelects(env: Environment)
    requires "DB_TEST_URL" in env && "DB_URL" in env
    ensures SessionUrl(["pytest"], env) == Success(env["DB_TEST_URL"])
    ensures SessionUrl(["ww"], env) == Success(env["DB_URL"])
  {
  }
}
