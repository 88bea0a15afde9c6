/** `Config::new` (src/lib.rs): the command line `pullpito <repositories>
    [<token>]`, where `<repositories>` is a comma-separated list. */
module Config {
  import opened Prelude

  datatype Result<T> = Ok(value: T) | Err(error: string)

  datatype Config = Config(repos: seq<string>, token: Option<string>)

  /** The usage text returned when the repositories are missing. */
  const MissingArguments: string :=
    "Missing arguments."
    + "\n\n Usage: pullpito $repositories $token\n\n "
    + "\t$repositories: a comma-separated list of GitHub repositories. Examples:\n "
    + "\t\tpython/peps\n "
    + "\t\tpython/peps,rust-lang/rust\n\n "
    + "\t$token: an optional GitHub personal access token"

  /** `str::split(',')`: the pieces between commas, empty ones included;
      there is always at least one piece. */
  function Split(s: string): (parts: seq<string>)
    ensures |parts| > 0
    ensures forall i :: 0 <= i < |parts| ==> ',' !in parts[i]
  {
    if s == [] then [""]
    else
      var rest := Split(s[1..]);
      if s[0] == ',' then [""] + rest
      else [[s[0]] + rest[0]] + rest[1..]
  }

  /** The pieces written back with commas between them. */
  function Join(parts: seq<string>): string
    requires |parts| > 0
  {
    if |parts| == 1 then parts[0] else parts[0] + "," + Join(parts[1..])
  }

  /** Splitting loses nothing: joining the pieces gives the text back. */
  lemma {:induction false} JoinSplit(s: string)
    ensures Join(Split(s)) == s
  {
    if s != [] {
      var rest := Split(s[1..]);
      JoinSplit(s[1..]);
      if s[0] == ',' {
        assert ([""] + rest)[1..] == rest;
      } else {
        var parts := [[s[0]] + rest[0]] + rest[1..];
        if |rest| == 1 {
          assert parts == [[s[0]] + rest[0]];
        } else {
          assert parts[1..] == rest[1..];
          assert Join(rest) == rest[0] + "," + Join(rest[1..]);
        }
      }
    }
  }

  /** Text without a comma is a single piece. */
  lemma {:induction false} SplitWithoutComma(a: string)
    requires ',' !in a
    ensures Split(a) == [a]
  {
    if a != [] {
      assert a[0] in a;
      assert forall c :: c in a[1..] ==> c in a;
      SplitWithoutComma(a[1..]);
      assert [a[0]] + a[1..] == a;
    }
  }

  /** A comma-free piece followed by a comma is the first piece. */
  lemma {:induction false} SplitAfterPiece(a: string, b: string)
    requires ',' !in a
    ensures Split(a + "," + b) == [a] + Split(b)
  {
    if a == [] {
      assert a + "," + b == [','] + b;
      assert ([','] + b)[1..] == b;
    } else {
      assert a[0] in a;
      assert forall c :: c in a[1..] ==> c in a;
      SplitAfterPiece(a[1..], b);
      assert (a + "," + b)[1..] == a[1..] + "," + b;
      assert [a[0]] + a[1..] == a;
    }
  }

  /** Joining comma-free pieces and splitting again gives the pieces back. */
  lemma {:induction false} SplitJoin(parts: seq<string>)
    requires |parts| > 0
    requires forall i :: 0 <= i < |parts| ==> ',' !in parts[i]
    ensures Split(Join(parts)) == parts
  {
    if |parts| == 1 {
      SplitWithoutComma(parts[0]);
    } else {
      SplitJoin(parts[1..]);
      SplitAfterPiece(parts[0], Join(parts[1..]));
      assert [parts[0]] + parts[1..] == parts;
    }
  }

  /** `Config::new`: fewer than two arguments is the usage error; otherwise
      the second argument is split on commas into the repositories, and the
      third, when there are exactly three, is the token. The first argument
      (the program name) is not read. */
  function New(args: seq<string>): (r: Result<Config>)
    ensures r.Err? <==> |args| < 2
    ensures r.Err? ==> "Missing arguments." <= r.error
    ensures r.Ok? ==> |r.value.repos| > 0 && Join(r.value.repos) == args[1]
    ensures r.Ok? ==> forall i :: 0 <= i < |r.value.repos| ==> ',' !in r.value.repos[i]
    ensures r.Ok? ==> (r.value.token.Some? <==> |args| == 3)
    ensures r.Ok? && r.value.token.Some? ==> r.value.token.value == args[2]
  {
    if |args| < 2 then Err(MissingArguments)
    else
      JoinSplit(args[1]);
      Ok(Config(Split(args[1]), if |args| == 3 then Some(args[2]) else None))
  }

  /** The program name does not matter. */
  lemma ProgramNameIgnored(args: seq<string>, name: string)
    requires |args| > 0
    ensures New([name] + args[1..]) == New(args)
  {
    assert ([name] + args[1..])[1..] == args[1..];
  }

  /* The source's tests. */

  /** parse_config_with_no_params */
  lemma NoParams()
    ensures New([""]).Err? && "Missing arguments." <= New([""]).error
  {
  }

  /** parse_config_with_repo_param */
  lemma RepoParam()
    ensures New(["", "fakeRepo"]) == Ok(Config(["fakeRepo"], None))
  {
    SplitWithoutComma("fakeRepo");
  }

  /** parse_config_with_one_repo_and_token_params */
  lemma OneRepoAndTokenParams()
    ensures New(["", "fakeRepo", "fakeToken"]) == Ok(Config(["fakeRepo"], Some("fakeToken")))
  {
    SplitWithoutComma("fakeRepo");
  }

  /** parse_config_with_two_repos_and_token_params */
  lemma TwoReposAndTokenParams()
    ensures New(["", "fakeRepo1,fakeRepo2", "fakeToken"])
         == Ok(Config(["fakeRepo1", "fakeRepo2"], Some("fakeToken")))
  {
    var repos := "fakeRepo1,fakeRepo2";
    assert repos == "fakeRepo1" + "," + "fakeRepo2";
    SplitAfterPiece("fakeRepo1", "fakeRepo2");
    SplitWithoutComma("fakeRepo2");
    assert Split(repos) == ["fakeRepo1", "fakeRepo2"];
  }
}
