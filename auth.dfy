/**
 * Username extraction and the 403 gate of the dashboard (modules/auth.py).
 *
 * The request environment is a map from variable names to strings, and
 * `abort(403, ...)` is the `Abort` alternative of a `Response`.
 */
module Auth {

  /** The environment variable the single-sign-on proxy sets. */
  const RemoteUserKey: string := "REMOTE_USER"

  /** The fixed user returned while no principal is present (testing mode). */
  const TestUser: string := "rwalsh"

  /** Status and message of the rejection `login_required` raises. */
  const ForbiddenStatus: nat := 403
  const ForbiddenMessage: string := "Authentication required"

  // ---------------------------------------------------------------------------
  // str.split with a one-character separator, and its inverse
  // ---------------------------------------------------------------------------

  /**
   * The pieces of `s` between occurrences of `sep`: one more piece than there
   * are separators, empty pieces included.
   */
  function Split(s: string, sep: char): (parts: seq<string>)
    ensures |parts| >= 1
    ensures forall i :: 0 <= i < |parts| ==> sep !in parts[i]
    ensures parts[0] <= s
    ensures |parts[0]| < |s| ==> s[|parts[0]|] == sep
  {
    if s == [] then [[]]
    else
      var rest := Split(s[1..], sep);
      if s[0] == sep then [[]] + rest
      else [[s[0]] + rest[0]] + rest[1..]
  }

  /** The pieces glued back together with `sep` between neighbours. */
  function Join(parts: seq<string>, sep: char): string
  {
    if |parts| == 0 then []
    else if |parts| == 1 then parts[0]
    else parts[0] + [sep] + Join(parts[1..], sep)
  }

  lemma {:induction false} JoinSplit(s: string, sep: char)
    ensures Join(Split(s, sep), sep) == s
  {
    if s != [] {
      var rest := Split(s[1..], sep);
      JoinSplit(s[1..], sep);
      if s[0] == sep {
        assert Split(s, sep) == [[]] + rest;
        assert Join(Split(s, sep), sep) == [] + [sep] + Join(rest, sep);
      } else {
        var parts := [[s[0]] + rest[0]] + rest[1..];
        assert Split(s, sep) == parts;
        if |rest| == 1 {
          assert Join(parts, sep) == [s[0]] + rest[0];
          assert Join(rest, sep) == rest[0];
        } else {
          assert parts[1..] == rest[1..];
          assert Join(parts, sep) == [s[0]] + rest[0] + [sep] + Join(rest[1..], sep);
          assert Join(rest, sep) == rest[0] + [sep] + Join(rest[1..], sep);
        }
      }
    }
  }

  /** Splitting a piece that holds no separator gives that piece back, alone. */
  lemma {:induction false} SplitNoSep(s: string, sep: char)
    requires sep !in s
    ensures Split(s, sep) == [s]
  {
    if s != [] {
      SplitNoSep(s[1..], sep);
      assert [s[0]] + s[1..] == s;
    }
  }

  /** Splitting `p + [sep] + t` splits off `p` (which holds no separator) in front of the split of `t`. */
  lemma {:induction false} SplitAfterPiece(p: string, sep: char, t: string)
    requires sep !in p
    ensures Split(p + [sep] + t, sep) == [p] + Split(t, sep)
  {
    if p == [] {
      assert p + [sep] + t == [sep] + t;
      assert ([sep] + t)[1..] == t;
    } else {
      assert (p + [sep] + t)[1..] == p[1..] + [sep] + t;
      SplitAfterPiece(p[1..], sep, t);
      assert [p[0]] + p[1..] == p;
    }
  }

  lemma {:induction false} SplitJoin(parts: seq<string>, sep: char)
    requires |parts| >= 1
    requires forall i :: 0 <= i < |parts| ==> sep !in parts[i]
    ensures Split(Join(parts, sep), sep) == parts
  {
    if |parts| == 1 {
      SplitNoSep(parts[0], sep);
    } else {
      SplitJoin(parts[1..], sep);
      SplitAfterPiece(parts[0], sep, Join(parts[1..], sep));
      assert [parts[0]] + parts[1..] == parts;
    }
  }

  // ---------------------------------------------------------------------------
  // get_current_user and login_required
  // ---------------------------------------------------------------------------

  /** The principal the proxy passed, the empty string when it passed none. */
  function Principal(environ: map<string, string>): string
  {
    if RemoteUserKey in environ then environ[RemoteUserKey] else ""
  }

  /**
   * The username in a principal: the test user for an empty principal, the
   * text before the first '@' when there is one, the principal otherwise.
   */
  function ExtractUser(eppn: string): (user: string)
    ensures eppn == [] ==> user == TestUser
    ensures eppn != [] && '@' !in eppn ==> user == eppn
    ensures eppn != [] ==> user <= eppn
    ensures eppn != [] && '@' in eppn ==> |user| < |eppn| && eppn[|user|] == '@'
    ensures '@' !in user
  {
    if eppn == [] then TestUser
    else if '@' in eppn then Split(eppn, '@')[0]
    else eppn
  }

  /** `get_current_user` on the request environment. */
  function GetCurrentUser(environ: map<string, string>): (user: string)
    ensures RemoteUserKey !in environ ==> user == TestUser
    ensures '@' !in user
  {
    ExtractUser(Principal(environ))
  }

  /** A username passed back in as a principal comes out unchanged. */
  lemma ExtractUserIdempotent(eppn: string)
    requires ExtractUser(eppn) != []
    ensures ExtractUser(ExtractUser(eppn)) == ExtractUser(eppn)
  {
  }

  /** What a request to a protected route produces. */
  datatype Response<R> = Abort(status: nat, message: string) | Handled(result: R)

  /**
   * A call of the function `login_required` wraps around `handler`: a 403
   * when there is no current user, the handler's own result otherwise.
   */
  function LoginRequired<A, R>(handler: A -> R, environ: map<string, string>, args: A): (resp: Response<R>)
    ensures resp.Abort? <==> GetCurrentUser(environ) == []
    ensures resp.Abort? ==> resp.status == 403 && resp.message == "Authentication required"
    ensures resp.Handled? ==> resp.result == handler(args)
  {
    if GetCurrentUser(environ) == [] then Abort(ForbiddenStatus, ForbiddenMessage)
    else Handled(handler(args))
  }

  /**
   * With the testing-mode fallback, a request is rejected exactly when its
   * principal starts with '@'.
   */
  lemma RejectedIffLeadingAt<A, R>(handler: A -> R, environ: map<string, string>, args: A)
    ensures LoginRequired(handler, environ, args).Abort? <==>
      (Principal(environ) != [] && Principal(environ)[0] == '@')
  {
  }
}
