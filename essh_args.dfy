/**
 * Target selection for an OpenSSH ssh(1)-style argument list.
 *
 * The wrapper forwards its arguments to ssh and needs the connection target
 * (the destination host or alias) to locate per-target hook scripts. It finds
 * it with a two-state scanner: tokens are read left to right, empty tokens
 * are skipped, a flag whose second character names a value-taking option
 * makes the next non-empty token a consumed value, and the first remaining
 * token is the target. When there is none the result is the empty string.
 */
module EsshArgs {

  /** The option letters of ssh(1) that take a following value. */
  const ValueArgLetters: string := "BbcDEeFIiJLlmOopQRSWw"

  /** The flag names a value-taking option. Only the character right after the dash is read. */
  predicate ImpliesValue(arg: string)
    requires |arg| >= 2
  {
    arg[1] in ValueArgLetters
  }

  /** A flag token: a dash followed by at least one more character. A lone "-" is not a flag. */
  predicate IsFlag(arg: string)
  {
    |arg| > 1 && arg[0] == '-'
  }

  /**
   * The scanner as a function of the tokens still to read and of the
   * `expecting_value` state: the target chosen from `args`.
   */
  function Scan(args: seq<string>, expecting: bool): string
  {
    if args == [] then ""
    else if args[0] == "" then Scan(args[1..], expecting)
    else if expecting then Scan(args[1..], false)
    else if IsFlag(args[0]) then Scan(args[1..], ImpliesValue(args[0]))
    else args[0]
  }

  // ---------------------------------------------------------------------
  // The two loops of the source, proved against ImpliesValue and Scan.
  // ---------------------------------------------------------------------

  /** Walks the value-taking letters and answers whether `arg[1]` is one of them. */
  method ArgImpliesValueLater(arg: string) returns (b: bool)
    requires |arg| >= 2
    ensures b == ImpliesValue(arg)
  {
    for i := 0 to |ValueArgLetters|
      invariant forall j :: 0 <= j < i ==> ValueArgLetters[j] != arg[1]
    {
      if ValueArgLetters[i] == arg[1] {
        return true;
      }
    }
    return false;
  }

  /** Returns the connection target of `args`, or "" when there is none. */
  method ParseArgs(args: seq<string>) returns (dest: string)
    ensures dest == Scan(args, false)
  {
    var expecting := false;
    for i := 0 to |args|
      invariant Scan(args[i..], expecting) == Scan(args, false)
    {
      var arg := args[i];
      assert args[i..][1..] == args[i + 1..];
      if arg == "" {
        continue;
      }
      if expecting {
        // the previous flag takes this token as its value
        expecting := false;
        continue;
      }
      if arg[0] == '-' && |arg| > 1 {
        var implies := ArgImpliesValueLater(arg);
        if implies {
          expecting := true;
        }
        continue;
      }
      return arg;
    }
    return "";
  }

  // ---------------------------------------------------------------------
  // The value-taking letters.
  // ---------------------------------------------------------------------

  /** The table holds 21 distinct ASCII letters. */
  lemma ValueLettersTable()
    ensures |ValueArgLetters| == 21
    ensures forall i, j :: 0 <= i < j < |ValueArgLetters| ==> ValueArgLetters[i] != ValueArgLetters[j]
    ensures forall c :: c in ValueArgLetters ==> ('A' <= c <= 'Z' || 'a' <= c <= 'z')
  {
  }

  /** Whether a flag takes a value depends on its second character alone. */
  lemma ImpliesValueReadsSecondOnly(a: string, b: string)
    requires |a| >= 2 && |b| >= 2 && a[1] == b[1]
    ensures ImpliesValue(a) == ImpliesValue(b)
  {
  }

  /**
   * Only `arg[1]` is inspected: a cluster such as "-vp" is not value-taking
   * although its last letter is, and "-pv" is.
   */
  lemma NoClusterScan()
    ensures !ImpliesValue("-vp") && ImpliesValue("-pv")
    ensures !ImpliesValue("-v") && !ImpliesValue("-N") && !ImpliesValue("-T")
  {
    assert "-vp"[1] == 'v';
    assert "-pv"[1] == 'p' == ValueArgLetters[15];
  }

  // ---------------------------------------------------------------------
  // A left-to-right reference definition of the target.
  // ---------------------------------------------------------------------

  /** How one token changes `expecting_value` when the scan does not stop on it. */
  function Step(arg: string, expecting: bool): bool
  {
    if arg == "" then expecting
    else if expecting then false
    else IsFlag(arg) && ImpliesValue(arg)
  }

  /** The value of `expecting_value` when token `i` is reached. */
  function PendingAt(args: seq<string>, i: nat): bool
    requires i <= |args|
    decreases i
  {
    if i == 0 then false else Step(args[i - 1], PendingAt(args, i - 1))
  }

  /** Token `i` qualifies as a target: non-empty, not a consumed value, not a flag. */
  predicate IsTargetAt(args: seq<string>, i: nat)
    requires i < |args|
  {
    args[i] != "" && !PendingAt(args, i) && !IsFlag(args[i])
  }

  /** Token `i` is the earliest qualifying token. */
  predicate IsFirstTarget(args: seq<string>, i: nat)
    requires i < |args|
  {
    IsTargetAt(args, i) && forall j :: 0 <= j < i ==> !IsTargetAt(args, j)
  }

  /** Until the first target, scanning the whole list is scanning the rest from the reached state. */
  lemma {:induction false} ScanFrom(args: seq<string>, i: nat)
    requires i <= |args|
    requires forall j :: 0 <= j < i ==> !IsTargetAt(args, j)
    ensures Scan(args, false) == Scan(args[i..], PendingAt(args, i))
  {
    if i > 0 {
      ScanFrom(args, i - 1);
      assert args[i - 1..][0] == args[i - 1];
      assert args[i - 1..][1..] == args[i..];
      assert !IsTargetAt(args, i - 1);
    } else {
      assert args[0..] == args;
    }
  }

  lemma {:induction false} ScanSearch(args: seq<string>, i: nat)
    requires i <= |args|
    requires forall j :: 0 <= j < i ==> !IsTargetAt(args, j)
    ensures || (Scan(args, false) == "" && forall k :: i <= k < |args| ==> !IsTargetAt(args, k))
            || (exists k :: i <= k < |args| && IsFirstTarget(args, k) && Scan(args, false) == args[k])
    decreases |args| - i
  {
    ScanFrom(args, i);
    if i == |args| {
      assert args[i..] == [];
    } else if IsTargetAt(args, i) {
      assert IsFirstTarget(args, i);
    } else {
      ScanSearch(args, i + 1);
    }
  }

  /** The result is "" exactly when no token qualifies as a target. */
  lemma NoTargetExactlyWhenEmpty(args: seq<string>)
    ensures Scan(args, false) == "" <==> forall k :: 0 <= k < |args| ==> !IsTargetAt(args, k)
  {
    ScanSearch(args, 0);
  }

  /** A non-empty result is the earliest qualifying token. */
  lemma FoundTargetIsFirst(args: seq<string>)
    ensures Scan(args, false) != "" ==> exists k :: 0 <= k < |args| && IsFirstTarget(args, k) && Scan(args, false) == args[k]
  {
    ScanSearch(args, 0);
  }

  /** The earliest qualifying token, when there is one, is the result. */
  lemma FirstTargetIsFound(args: seq<string>, k: nat)
    requires k < |args| && IsFirstTarget(args, k)
    ensures Scan(args, false) == args[k]
  {
    ScanFrom(args, k);
    assert args[k..][0] == args[k];
  }

  /** The result is "" or a non-empty, non-flag token of the list. */
  lemma TargetShape(args: seq<string>)
    ensures var r := Scan(args, false); r == "" || (r in args && !IsFlag(r))
  {
    FoundTargetIsFirst(args);
  }

  // ---------------------------------------------------------------------
  // Value tokens, empty tokens and the order of tokens.
  // ---------------------------------------------------------------------

  /** Leading empty tokens change neither the result nor the pending state. */
  lemma {:induction false} SkipEmpties(args: seq<string>, n: nat, expecting: bool)
    requires n <= |args|
    requires forall m :: 0 <= m < n ==> args[m] == ""
    ensures Scan(args, expecting) == Scan(args[n..], expecting)
  {
    if n > 0 {
      assert args[0] == "";
      SkipEmpties(args[1..], n - 1, expecting);
      assert args[1..][n - 1..] == args[n..];
    } else {
      assert args[0..] == args;
    }
  }

  /**
   * Once the scan reaches a value-taking flag, the first non-empty token
   * after it is consumed whatever its shape: the result is the scan of the
   * tokens after that value.
   */
  lemma ValueTokenSkipped(args: seq<string>, i: nat, j: nat)
    requires i < j < |args|
    requires IsFlag(args[i]) && ImpliesValue(args[i])
    requires forall m :: i < m < j ==> args[m] == ""
    requires args[j] != ""
    ensures Scan(args[i..], false) == Scan(args[j + 1..], false)
  {
    assert args[i..][1..] == args[i + 1..];
    SkipEmpties(args[i + 1..], j - i - 1, true);
    assert args[i + 1..][j - i - 1..] == args[j..];
    assert args[j..][1..] == args[j + 1..];
  }

  /** In reference terms: the value after a value-taking flag never qualifies as a target. */
  lemma {:induction false} ValueTokenNeverTarget(args: seq<string>, i: nat, j: nat)
    requires i < j < |args|
    requires IsFlag(args[i]) && ImpliesValue(args[i]) && !PendingAt(args, i)
    requires forall m :: i < m < j ==> args[m] == ""
    requires args[j] != ""
    ensures PendingAt(args, j) && !IsTargetAt(args, j)
    decreases j - i
  {
    if j > i + 1 {
      PendingThroughEmpties(args, i + 1, j);
    }
  }

  lemma {:induction false} PendingThroughEmpties(args: seq<string>, i: nat, j: nat)
    requires 0 < i <= j <= |args|
    requires PendingAt(args, i)
    requires forall m :: i <= m < j ==> args[m] == ""
    ensures PendingAt(args, j)
    decreases j - i
  {
    if j > i {
      PendingThroughEmpties(args, i, j - 1);
    }
  }

  /** The list without its empty tokens. */
  function NonEmpty(args: seq<string>): (r: seq<string>)
    ensures forall t :: t in r ==> t != "" && t in args
  {
    if args == [] then []
    else if args[0] == "" then NonEmpty(args[1..])
    else [args[0]] + NonEmpty(args[1..])
  }

  /** Empty tokens are skipped without touching `expecting_value`. */
  lemma {:induction false} EmptyTokensIgnored(args: seq<string>, expecting: bool)
    ensures Scan(NonEmpty(args), expecting) == Scan(args, expecting)
  {
    if args != [] {
      if args[0] == "" {
        EmptyTokensIgnored(args[1..], expecting);
      } else {
        var rest := NonEmpty(args[1..]);
        assert ([args[0]] + rest)[1..] == rest;
        EmptyTokensIgnored(args[1..], false);
        if IsFlag(args[0]) {
          EmptyTokensIgnored(args[1..], ImpliesValue(args[0]));
        }
      }
    }
  }

  /** First match wins: tokens after a found target are never looked at. */
  lemma {:induction false} LaterTokensIgnored(args: seq<string>, rest: seq<string>, expecting: bool)
    requires Scan(args, expecting) != ""
    ensures Scan(args + rest, expecting) == Scan(args, expecting)
  {
    assert args != [];
    assert (args + rest)[0] == args[0];
    assert (args + rest)[1..] == args[1..] + rest;
    if args[0] == "" {
      LaterTokensIgnored(args[1..], rest, expecting);
    } else if expecting {
      LaterTokensIgnored(args[1..], rest, false);
    } else if IsFlag(args[0]) {
      LaterTokensIgnored(args[1..], rest, ImpliesValue(args[0]));
    }
  }

  /** Without flags, the target is the first non-empty token; a lone "-" is such a token. */
  lemma {:induction false} NoFlagsFirstNonEmpty(args: seq<string>, k: nat)
    requires forall i :: 0 <= i < |args| ==> !IsFlag(args[i])
    requires k < |args| && args[k] != ""
    requires forall i :: 0 <= i < k ==> args[i] == ""
    ensures Scan(args, false) == args[k]
  {
    SkipEmpties(args, k, false);
    assert args[k..][0] == args[k];
  }

  /** Nothing but empty tokens, flags and their values: no target. */
  lemma {:induction false} NoCandidateNoTarget(args: seq<string>, expecting: bool)
    requires forall i :: 0 <= i < |args| ==> args[i] == "" || IsFlag(args[i])
    requires forall i :: 0 <= i < |args| && IsFlag(args[i]) ==> !ImpliesValue(args[i])
    ensures Scan(args, expecting) == ""
  {
    if args != [] {
      NoCandidateNoTarget(args[1..], if args[0] == "" then expecting else false);
    }
  }

  /** A lone dash is a target candidate, not a flag. */
  lemma LoneDashIsTarget(rest: seq<string>)
    ensures Scan(["-"] + rest, false) == "-"
  {
  }

  /** The ten empty slots the caller puts before the real arguments do not change the target. */
  lemma {:induction false} PrefilledSlotsIgnored(args: seq<string>)
    ensures Scan(seq(10, _ => "") + args, false) == Scan(args, false)
  {
    var s := seq(10, _ => "") + args;
    SkipEmpties(s, 10, false);
    assert s[10..] == args;
  }

  /** Worked cases: a pending value survives an empty token; "-l root" is skipped. */
  lemma Examples()
    ensures Scan(["-p", "", "2222", "h"], false) == "h"
    ensures Scan(["-l", "root", "10.0.0.1"], false) == "10.0.0.1"
    ensures Scan(["-v", "-p", "2222", "host1", "ls"], false) == "host1"
    ensures Scan([], false) == ""
  {
    assert ImpliesValue("-p") by { assert "-p"[1] == ValueArgLetters[15]; }
    assert ImpliesValue("-l") by { assert "-l"[1] == ValueArgLetters[11]; }
    assert !ImpliesValue("-v");
    var a := ["-p", "", "2222", "h"];
    assert a[1..] == ["", "2222", "h"] && a[2..] == ["2222", "h"] && a[3..] == ["h"];
    assert a[1..][1..] == a[2..] && a[2..][1..] == a[3..];
    var b := ["-l", "root", "10.0.0.1"];
    assert b[1..][1..] == ["10.0.0.1"];
    var c := ["-v", "-p", "2222", "host1", "ls"];
    assert c[1..] == ["-p", "2222", "host1", "ls"];
    assert c[1..][1..] == ["2222", "host1", "ls"];
    assert c[1..][1..][1..] == ["host1", "ls"];
  }
}
