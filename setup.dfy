/** The username setup page: the base slug derived from the chosen username,
    the probe loop that finds the first free candidate slug, and the
    submission that inserts the profile row and decides what the page shows. */
module Setup {
  import opened Base
  import opened Store

  // ---------------------------------------------------------------------------
  // Base slug: username.toLowerCase().trim().replace(/[^a-z0-9]+/g, '-').replace(/(^-|-$)/g, '')

  predicate IsSlugChar(c: char) { 'a' <= c <= 'z' || '0' <= c <= '9' }

  predicate OverSlugAlphabet(s: string) { forall k :: 0 <= k < |s| ==> IsSlugChar(s[k]) || s[k] == '-' }

  predicate NoDoubleDash(s: string) { forall k :: 0 <= k < |s| - 1 ==> !(s[k] == '-' && s[k + 1] == '-') }

  /** What the page promises of a base slug: non-empty, over `[a-z0-9-]`, no
      `--`, and no `-` at either end. */
  predicate IsBaseSlug(s: string)
  {
    s != [] && OverSlugAlphabet(s) && NoDoubleDash(s) && s[0] != '-' && s[|s| - 1] != '-'
  }

  /** The letters and digits of `s`, in order. */
  function Alnum(s: string): string
  {
    if s == [] then [] else (if IsSlugChar(s[0]) then [s[0]] else []) + Alnum(s[1..])
  }

  lemma {:induction false} AlnumAppend(a: string, b: string)
    ensures Alnum(a + b) == Alnum(a) + Alnum(b)
  {
    if a == [] {
      assert a + b == b;
    } else {
      var head := if IsSlugChar(a[0]) then [a[0]] else [];
      assert (a + b)[0] == a[0];
      assert (a + b)[1..] == a[1..] + b;
      AlnumAppend(a[1..], b);
      assert Alnum(a + b) == head + Alnum(a[1..] + b);
      assert Alnum(a) == head + Alnum(a[1..]);
    }
  }

  lemma {:induction false} AlnumOfSeparators(s: string)
    requires forall k :: 0 <= k < |s| ==> !IsSlugChar(s[k])
    ensures Alnum(s) == []
  {
    if s != [] {
      AlnumOfSeparators(s[1..]);
    }
  }

  /** The length of the leading run of characters outside `[a-z0-9]`. */
  function RunLength(s: string): (n: nat)
    ensures n <= |s|
    ensures forall k :: 0 <= k < n ==> !IsSlugChar(s[k])
    ensures n < |s| ==> IsSlugChar(s[n])
  {
    if s == [] || IsSlugChar(s[0]) then 0 else 1 + RunLength(s[1..])
  }

  /** `replace(/[^a-z0-9]+/g, '-')`: every maximal run of other characters
      becomes one `-`. */
  function CollapseRuns(s: string): (r: string)
    ensures r == [] <==> s == []
    ensures r != [] ==> (r[0] == '-' <==> !IsSlugChar(s[0]))
    decreases |s|
  {
    if s == [] then []
    else if IsSlugChar(s[0]) then [s[0]] + CollapseRuns(s[1..])
    else "-" + CollapseRuns(s[RunLength(s)..])
  }

  /** The collapsed text is over `[a-z0-9-]` and has no `--`. */
  lemma {:induction false} CollapseRunsShape(s: string)
    ensures OverSlugAlphabet(CollapseRuns(s)) && NoDoubleDash(CollapseRuns(s))
    decreases |s|
  {
    if s != [] {
      if IsSlugChar(s[0]) {
        CollapseRunsShape(s[1..]);
      } else {
        CollapseRunsShape(s[RunLength(s)..]);
      }
    }
  }

  /** A run of separators followed by text that starts with a letter or digit
      is measured up to that letter or digit. */
  lemma {:induction false} RunLengthOfRun(w: string, b: string)
    requires forall k :: 0 <= k < |w| ==> !IsSlugChar(w[k])
    requires b == [] || IsSlugChar(b[0])
    ensures RunLength(w + b) == |w|
  {
    if w != [] {
      assert (w + b)[1..] == w[1..] + b;
      RunLengthOfRun(w[1..], b);
    } else {
      assert w + b == b;
    }
  }

  /** A run that ends inside `x` is not lengthened by what follows `x`. */
  lemma {:induction false} RunLengthOfPrefix(x: string, y: string)
    requires RunLength(x) < |x|
    ensures RunLength(x + y) == RunLength(x)
  {
    if !IsSlugChar(x[0]) {
      assert (x + y)[1..] == x[1..] + y;
      RunLengthOfPrefix(x[1..], y);
    }
  }

  /** A separator run at the start becomes one `-`. */
  lemma CollapseLeadingRun(w: string, b: string)
    requires w != [] && forall k :: 0 <= k < |w| ==> !IsSlugChar(w[k])
    requires b == [] || IsSlugChar(b[0])
    ensures CollapseRuns(w + b) == "-" + CollapseRuns(b)
  {
    RunLengthOfRun(w, b);
    assert (w + b)[0] == w[0];
    assert (w + b)[|w|..] == b;
  }

  /** Collapsing `x` followed by more text: a leading letter or digit is
      kept, and a leading run that ends inside `x` becomes one `-`. */
  lemma CollapseStep(x: string, y: string)
    requires x != [] && IsSlugChar(x[|x| - 1])
    ensures IsSlugChar(x[0]) ==> CollapseRuns(x + y) == [x[0]] + CollapseRuns(x[1..] + y)
                                 && CollapseRuns(x) == [x[0]] + CollapseRuns(x[1..])
    ensures !IsSlugChar(x[0]) ==> RunLength(x) < |x|
                                  && CollapseRuns(x + y) == "-" + CollapseRuns(x[RunLength(x)..] + y)
                                  && CollapseRuns(x) == "-" + CollapseRuns(x[RunLength(x)..])
  {
    assert (x + y)[0] == x[0];
    if IsSlugChar(x[0]) {
      assert (x + y)[1..] == x[1..] + y;
    } else {
      RunLengthOfPrefix(x, y);
      assert (x + y)[RunLength(x)..] == x[RunLength(x)..] + y;
    }
  }

  /** Each maximal run of separators becomes exactly one `-` in its place:
      collapsing `a`, a separator run `w`, and `b` gives the collapse of `a`,
      one `-`, and the collapse of `b`, when the run is maximal (`a` ends and
      `b` starts with a letter or digit, or is empty). */
  lemma {:induction false} CollapseRunsSplit(a: string, w: string, b: string)
    requires w != [] && forall k :: 0 <= k < |w| ==> !IsSlugChar(w[k])
    requires a == [] || IsSlugChar(a[|a| - 1])
    requires b == [] || IsSlugChar(b[0])
    ensures CollapseRuns(a + w + b) == CollapseRuns(a) + "-" + CollapseRuns(b)
    decreases |a|, 1
  {
    if a == [] {
      assert a + w + b == w + b;
      CollapseLeadingRun(w, b);
      assert CollapseRuns(a) + "-" + CollapseRuns(b) == "-" + CollapseRuns(b);
    } else {
      CollapseRunsSplitStep(a, w, b);
    }
  }

  /** The inductive step of `CollapseRunsSplit`: the first character or
      leading run of a non-empty `a` is collapsed the same way on both sides. */
  lemma {:induction false} CollapseRunsSplitStep(a: string, w: string, b: string)
    requires w != [] && forall k :: 0 <= k < |w| ==> !IsSlugChar(w[k])
    requires a != [] && IsSlugChar(a[|a| - 1])
    requires b == [] || IsSlugChar(b[0])
    ensures CollapseRuns(a + w + b) == CollapseRuns(a) + "-" + CollapseRuns(b)
    decreases |a|, 0
  {
    var n := if IsSlugChar(a[0]) then 1 else RunLength(a);
    var head := if IsSlugChar(a[0]) then [a[0]] else "-";
    var tail := a[n..];
    assert CollapseRuns(a + w + b) == head + CollapseRuns(tail + w + b) by {
      assert a + w + b == a + (w + b);
      assert tail + (w + b) == tail + w + b;
      CollapseStep(a, w + b);
    }
    assert CollapseRuns(a) == head + CollapseRuns(tail) by {
      CollapseStep(a, []);
    }
    assert CollapseRuns(tail + w + b) == CollapseRuns(tail) + "-" + CollapseRuns(b) by {
      assert tail == [] || tail[|tail| - 1] == a[|a| - 1];
      CollapseRunsSplit(tail, w, b);
    }
    Regroup(head, CollapseRuns(tail), CollapseRuns(b));
  }

  lemma Regroup(h: string, c: string, b: string)
    ensures h + (c + "-" + b) == h + c + "-" + b
  {
  }

  lemma {:induction false} CollapseKeepsAlnum(s: string)
    ensures Alnum(CollapseRuns(s)) == Alnum(s)
    decreases |s|
  {
    if s == [] {
    } else if IsSlugChar(s[0]) {
      var rest := CollapseRuns(s[1..]);
      assert ([s[0]] + rest)[1..] == rest;
      CollapseKeepsAlnum(s[1..]);
    } else {
      var n := RunLength(s);
      var rest := CollapseRuns(s[n..]);
      assert ("-" + rest)[1..] == rest;
      CollapseKeepsAlnum(s[n..]);
      assert s == s[..n] + s[n..];
      AlnumAppend(s[..n], s[n..]);
      AlnumOfSeparators(s[..n]);
    }
  }

  /** A string over `[a-z0-9-]` without `--` is already collapsed. */
  lemma {:induction false} CollapseFixesCollapsed(s: string)
    requires OverSlugAlphabet(s) && NoDoubleDash(s)
    ensures CollapseRuns(s) == s
    decreases |s|
  {
    if s != [] {
      if IsSlugChar(s[0]) {
        CollapseFixesCollapsed(s[1..]);
      } else {
        assert RunLength(s) == 1;
        CollapseFixesCollapsed(s[1..]);
      }
    }
  }

  /** The `^-` alternative: one `-` at the start is dropped. */
  function DropLeadingDash(s: string): (r: string)
    ensures s == (if s != [] && s[0] == '-' then "-" else "") + r
  {
    if s != [] && s[0] == '-' then s[1..] else s
  }

  /** The `-$` alternative: one `-` at the end is dropped. */
  function DropTrailingDash(s: string): (r: string)
    ensures s == r + (if s != [] && s[|s| - 1] == '-' then "-" else "")
  {
    if s != [] && s[|s| - 1] == '-' then s[..|s| - 1] else s
  }

  /** `replace(/(^-|-$)/g, '')`: drops one `-` at the start and one at the end.
      The input is the result with the dropped `-`s put back: one in front
      exactly when the input starts with `-`, and one at the end exactly when
      what follows that one still ends with `-`. */
  function StripEdgeDashes(s: string): (r: string)
    ensures var a: string := if s != [] && s[0] == '-' then "-" else "";
            var b: string := if |s| > |a| && s[|s| - 1] == '-' then "-" else "";
            s == a + r + b
    ensures s != [] && s[0] != '-' && s[|s| - 1] != '-' ==> r == s
  {
    var t := DropLeadingDash(s);
    var r := DropTrailingDash(t);
    var a: string := if s != [] && s[0] == '-' then "-" else "";
    assert s == a + t;
    assert t != [] ==> |s| > |a| && t[|t| - 1] == s[|s| - 1];
    assert t == [] ==> |s| == |a|;
    r
  }

  /** Stripping edge dashes keeps the letters and digits. */
  lemma StripEdgeDashesKeepsAlnum(s: string)
    ensures Alnum(StripEdgeDashes(s)) == Alnum(s)
  {
    var t := DropLeadingDash(s);
    var r := DropTrailingDash(t);
    var a: string := if s != [] && s[0] == '-' then "-" else "";
    var b: string := if t != [] && t[|t| - 1] == '-' then "-" else "";
    assert StripEdgeDashes(s) == r;
    assert s == a + t && t == r + b;
    assert Alnum(a) == [] && Alnum(b) == [];
    AlnumAppend(a, t);
    AlnumAppend(r, b);
  }

  /** A slice of text over `[a-z0-9-]` without `--` is such text too. */
  lemma SliceKeepsShape(s: string, i: nat, j: nat)
    requires i <= j <= |s| && OverSlugAlphabet(s) && NoDoubleDash(s)
    ensures OverSlugAlphabet(s[i..j]) && NoDoubleDash(s[i..j])
  {
    var r := s[i..j];
    forall k | 0 <= k < |r|
      ensures IsSlugChar(r[k]) || r[k] == '-'
    {
      assert r[k] == s[i + k];
    }
    forall k | 0 <= k < |r| - 1
      ensures !(r[k] == '-' && r[k + 1] == '-')
    {
      assert r[k] == s[i + k] && r[k + 1] == s[i + k + 1];
    }
  }

  /** Dropping the leading `-` of collapsed text leaves collapsed text that
      does not start with `-`. */
  lemma DropLeadingDashShape(s: string)
    requires OverSlugAlphabet(s) && NoDoubleDash(s)
    ensures var t := DropLeadingDash(s);
      OverSlugAlphabet(t) && NoDoubleDash(t) && (t == [] || t[0] != '-')
  {
    if s != [] && s[0] == '-' {
      SliceKeepsShape(s, 1, |s|);
      if |s| > 1 {
        assert s[1] != '-';
      }
    }
  }

  /** Dropping the trailing `-` of collapsed text that does not start with
      `-` leaves text that is empty or a base slug. */
  lemma DropTrailingDashShape(t: string)
    requires OverSlugAlphabet(t) && NoDoubleDash(t) && (t == [] || t[0] != '-')
    ensures var r := DropTrailingDash(t); r == [] || IsBaseSlug(r)
  {
    if t != [] && t[|t| - 1] == '-' {
      var r := t[..|t| - 1];
      SliceKeepsShape(t, 0, |t| - 1);
      if r != [] {
        assert r[0] == t[0];
        assert r[|r| - 1] == t[|t| - 2];
      }
    }
  }

  /** Collapsed text with its edge dashes stripped is empty or a base slug. */
  lemma StripEdgeDashesGivesBaseSlug(s: string)
    requires OverSlugAlphabet(s) && NoDoubleDash(s)
    ensures var r := StripEdgeDashes(s); r == [] || IsBaseSlug(r)
  {
    assert StripEdgeDashes(s) == DropTrailingDash(DropLeadingDash(s));
    DropLeadingDashShape(s);
    DropTrailingDashShape(DropLeadingDash(s));
  }

  lemma AlnumOfWhitespace(w: string)
    requires forall k :: 0 <= k < |w| ==> IsJsWhitespace(w[k])
    ensures Alnum(w) == []
  {
  }

  lemma TrimStartKeepsAlnum(s: string)
    ensures Alnum(TrimStart(s)) == Alnum(s)
  {
  }

  lemma TrimEndKeepsAlnum(s: string)
    ensures Alnum(TrimEnd(s)) == Alnum(s)
  {
    var r := TrimEnd(s);
    var trail := s[|r|..];
    assert s == r + trail;
    AlnumOfWhitespace(trail);
    AlnumAppend(r, trail);
  }

  lemma TrimKeepsAlnum(s: string)
    ensures Alnum(Trim(s)) == Alnum(s)
  {
    TrimStartKeepsAlnum(s);
    TrimEndKeepsAlnum(TrimStart(s));
  }

  /** The normalisation chain before the fallback: empty, or a base slug that
      keeps exactly the letters and digits of the lower-cased username. */
  function Normalize(username: string): (r: string)
    ensures r == [] || IsBaseSlug(r)
    ensures Alnum(r) == Alnum(ToLower(username))
  {
    var lower := ToLower(username);
    TrimKeepsAlnum(lower);
    CollapseKeepsAlnum(Trim(lower));
    CollapseRunsShape(Trim(lower));
    StripEdgeDashesKeepsAlnum(CollapseRuns(Trim(lower)));
    StripEdgeDashesGivesBaseSlug(CollapseRuns(Trim(lower)));
    StripEdgeDashes(CollapseRuns(Trim(lower)))
  }

  lemma BaseSlugHasAlnum(s: string)
    requires IsBaseSlug(s)
    ensures Alnum(s) != []
  {
  }

  const FallbackSlug := "user"

  lemma FallbackIsBaseSlug()
    ensures IsBaseSlug(FallbackSlug)
  {
  }

  /** The base slug of `handleSubmit`: a valid slug in every case; `user` when
      the username has no ASCII letter or digit, and otherwise a slug whose
      letters and digits are those of the lower-cased username. */
  function BaseSlug(username: string): (r: string)
    ensures IsBaseSlug(r)
    ensures Alnum(ToLower(username)) == [] ==> r == FallbackSlug
    ensures Alnum(ToLower(username)) != [] ==> Alnum(r) == Alnum(ToLower(username))
  {
    var b := Normalize(username);
    if b == [] then
      FallbackIsBaseSlug();
      FallbackSlug
    else
      BaseSlugHasAlnum(b);
      b
  }

  /** Normalising a base slug gives it back. */
  lemma {:induction false} BaseSlugFixesBaseSlug(s: string)
    requires IsBaseSlug(s)
    ensures BaseSlug(s) == s
  {
    assert ToLower(s) == s;
    TrimOfTrimmed(s);
    CollapseFixesCollapsed(s);
  }

  lemma BaseSlugIdempotent(username: string)
    ensures BaseSlug(BaseSlug(username)) == BaseSlug(username)
  {
    BaseSlugFixesBaseSlug(BaseSlug(username));
  }

  // ---------------------------------------------------------------------------
  // Candidates and the probe loop

  /** The `i`-th slug tried: the base itself, then `base-1`, `base-2`, ... */
  function Candidate(base: string, i: nat): (c: string)
    ensures i == 0 ==> c == base
    ensures i > 0 ==> c == base + "-" + NatToString(i)
    ensures i > 0 ==> |c| > |base| + 1 && c[..|base|] == base && c[|base|] == '-'
  {
    if i == 0 then base else base + "-" + NatToString(i)
  }

  lemma CandidatesDistinct(base: string, i: nat, j: nat)
    requires i != j
    ensures Candidate(base, i) != Candidate(base, j)
  {
    if i > 0 && j > 0 && Candidate(base, i) == Candidate(base, j) {
      var n := |base| + 1;
      assert Candidate(base, i)[n..] == NatToString(i);
      assert Candidate(base, j)[n..] == NatToString(j);
      NatToStringInjective(i, j);
    }
  }

  /** Every candidate of a base slug is itself a slug over `[a-z0-9-]` with no
      `--` and no `-` at either end. */
  lemma CandidateIsBaseSlug(base: string, i: nat)
    requires IsBaseSlug(base)
    ensures IsBaseSlug(Candidate(base, i))
  {
    if i > 0 {
      var d := NatToString(i);
      var c := Candidate(base, i);
      var n := |base|;
      assert c == base + "-" + d;
      assert forall k :: 0 <= k < n ==> c[k] == base[k];
      assert c[n] == '-';
      assert forall k :: n < k < |c| ==> c[k] == d[k - n - 1] && IsSlugChar(c[k]);
      assert OverSlugAlphabet(c);
      assert c[0] == base[0] && c[|c| - 1] == d[|d| - 1];
      assert NoDoubleDash(c) by {
        forall k | 0 <= k < |c| - 1
          ensures !(c[k] == '-' && c[k + 1] == '-')
        {
          if k == n - 1 {
            assert c[k] == base[n - 1];
          }
        }
      }
    }
  }

  lemma {:induction false} CandidateSetSize(base: string, n: nat)
    ensures |set j | 0 <= j < n :: Candidate(base, j)| == n
  {
    if n > 0 {
      var prev := set j | 0 <= j < n - 1 :: Candidate(base, j);
      var all := set j | 0 <= j < n :: Candidate(base, j);
      assert all == prev + {Candidate(base, n - 1)};
      if Candidate(base, n - 1) in prev {
        var j :| 0 <= j < n - 1 && Candidate(base, j) == Candidate(base, n - 1);
        CandidatesDistinct(base, j, n - 1);
      }
      CandidateSetSize(base, n - 1);
    }
  }

  /** `n` distinct taken candidates need `n` taken slugs: this is what bounds
      the probe loop. */
  lemma TakenCandidatesBound(taken: set<string>, base: string, n: nat)
    requires forall j :: 0 <= j < n ==> Candidate(base, j) in taken
    ensures n <= |taken|
  {
    var cs := set j | 0 <= j < n :: Candidate(base, j);
    CandidateSetSize(base, n);
    assert cs <= taken;
    assert taken == cs + (taken - cs);
    assert cs * (taken - cs) == {};
  }

  /** The index of the first free candidate at or after `from`, given that all
      before `from` are taken. */
  function FirstFree(base: string, taken: set<string>, from: nat): (i: nat)
    requires forall j :: 0 <= j < from ==> Candidate(base, j) in taken
    ensures from <= i && Candidate(base, i) !in taken
    ensures forall j :: from <= j < i ==> Candidate(base, j) in taken
    decreases |taken| - from
  {
    if Candidate(base, from) !in taken then from
    else
      TakenCandidatesBound(taken, base, from + 1);
      FirstFree(base, taken, from + 1)
  }

  /** The probe loop: tries `base`, `base-1`, `base-2`, ... against the
      profiles table, one read-only lookup each, and stops at the first slug
      no profile has. */
  method AllocateSlug(profiles: ProfileTable, base: string) returns (slug: string, i: nat)
    ensures i == FirstFree(base, Slugs(profiles.rows), 0)
    ensures slug == Candidate(base, i)
    ensures slug !in Slugs(profiles.rows)
    ensures forall j :: 0 <= j < i ==> Candidate(base, j) in Slugs(profiles.rows)
  {
    ghost var taken := Slugs(profiles.rows);
    slug := base;
    i := 0;
    while true
      invariant slug == Candidate(base, i)
      invariant forall j :: 0 <= j < i ==> Candidate(base, j) in taken
      invariant FirstFree(base, taken, i) == FirstFree(base, taken, 0)
      decreases |taken| - i
    {
      var data := profiles.FindBySlug(slug);
      if data.None? {
        break;
      }
      TakenCandidatesBound(taken, base, i + 1);
      i := i + 1;
      slug := Candidate(base, i);
    }
  }

  // ---------------------------------------------------------------------------
  // The candidate as line 48 is written

  /** The retry template as written: its `$` markers are missing, so it is a
      template literal without substitutions and every retry proposes the
      same text. */
  const LiteralRetry := "( {baseSlug}- ){i}"

  function CandidateAsWritten(base: string, i: nat): (c: string)
    ensures i > 0 ==> c == LiteralRetry
  {
    if i == 0 then base else LiteralRetry
  }

  /** With `user` and the literal text taken, every candidate of the written
      loop is taken, so it never leaves `while (true)`; the intended candidates
      find `user-1` at the second probe. */
  lemma LiteralRetryNeverFrees()
    ensures forall i: nat :: CandidateAsWritten(FallbackSlug, i) in {FallbackSlug, LiteralRetry}
    ensures FirstFree(FallbackSlug, {FallbackSlug, LiteralRetry}, 0) == 1
    ensures Candidate(FallbackSlug, 1) == "user-1"
  {
  }

  // ---------------------------------------------------------------------------
  // Submission

  /** `getUser()`: the current user, or an error, or neither. */
  datatype UserResult = UserResult(user: Option<User>, error: Option<Error>)

  const SlugTaken := "Username or slug already taken"
  const GenericFailure := "Something went wrong"
  const NoUser := "No user"

  /** The catch clause: `err.message || 'Something went wrong'`. */
  function Shown(thrown: string): (m: string)
    ensures m != []
    ensures thrown != [] ==> m == thrown
    ensures thrown == [] ==> m == GenericFailure
  {
    if thrown == [] then GenericFailure else thrown
  }

  /** The visible outcome of one submission. */
  datatype Submission = Submission(message: string, pushed: seq<string>, rows: seq<Profile>)

  /** `handleSubmit` as a function of its inputs: the username typed, the
      result of the metadata update, the result of `getUser()`, the profiles
      table, and a datastore failure of the insert, if any. Either the profile
      row `{ id, email, username, slug }` is appended, its slug being the
      first free candidate of the username's base slug (a base slug no
      profile holds), and the page goes to the dashboard with no message, or nothing is
      written, nothing is pushed and a non-empty message is shown. */
  function Submit(username: string, metaError: Option<Error>, current: UserResult,
                  rows: seq<Profile>, insertFault: Option<Error>): (r: Submission)
    ensures r.pushed == [] || r.pushed == [DashboardPath]
    ensures r.pushed == [] ==> r.message != [] && r.rows == rows
    ensures r.pushed == [DashboardPath] ==>
              r.message == [] && metaError.None? && current.error.None? && current.user.Some? && insertFault.None?
    ensures r.pushed == [DashboardPath] ==>
              var slug := Candidate(BaseSlug(username), FirstFree(BaseSlug(username), Slugs(rows), 0));
              IsBaseSlug(slug) && slug !in Slugs(rows) && current.user.value.id !in Ids(rows)
              && r.rows == rows + [Profile(current.user.value.id, current.user.value.email, username, slug)]
  {
    if metaError.Some? then Submission(Shown(metaError.value.message), [], rows)
    else if current.error.Some? then Submission(Shown(current.error.value.message), [], rows)
    else if current.user.None? then Submission(Shown(NoUser), [], rows)
    else
      var user := current.user.value;
      var base := BaseSlug(username);
      var i := FirstFree(base, Slugs(rows), 0);
      CandidateIsBaseSlug(base, i);
      var row := Profile(user.id, user.email, username, Candidate(base, i));
      var err := InsertError(rows, row, insertFault);
      if err.None? then Submission([], [DashboardPath], rows + [row])
      else if err.value.code == UniqueViolation then Submission(SlugTaken, [], rows)
      else Submission(Shown(err.value.message), [], rows)
  }

  /** A failed metadata update or a missing user stops the submission before
      any probe or insert; the thrown message (or its fallback) is shown. */
  lemma SubmitAbortsBeforeInsert(username: string, metaError: Option<Error>, current: UserResult,
                                 rows: seq<Profile>, insertFault: Option<Error>)
    requires metaError.Some? || current.error.Some? || current.user.None?
    ensures var r := Submit(username, metaError, current, rows, insertFault);
      r.rows == rows && r.pushed == []
      && r.message == Shown(if metaError.Some? then metaError.value.message
                            else if current.error.Some? then current.error.value.message
                            else NoUser)
  {
  }

  /** In a single session the probed slug is free, so the insert meets a
      unique violation exactly when the user already has a profile row; the
      page then shows "Username or slug already taken". */
  lemma SubmitConflictIffProfileExists(username: string, user: User, rows: seq<Profile>)
    ensures var r := Submit(username, None, UserResult(Some(user), None), rows, None);
      (r.message == SlugTaken <==> user.id in Ids(rows))
      && (user.id !in Ids(rows) ==> r.pushed == [DashboardPath])
  {
  }

  /** A failed insert writes and pushes nothing: a unique violation shows
      "Username or slug already taken", and any other error its message, or
      the fallback when it has none. */
  lemma SubmitOtherInsertError(username: string, user: User, rows: seq<Profile>, fault: Error)
    ensures var r := Submit(username, None, UserResult(Some(user), None), rows, Some(fault));
      r.message == (if fault.code == UniqueViolation then SlugTaken else Shown(fault.message))
      && r.pushed == [] && r.rows == rows
  {
  }

  /** A successful submission keeps the table's keys unique. */
  lemma SubmitKeepsKeysUnique(username: string, metaError: Option<Error>, current: UserResult,
                              rows: seq<Profile>, insertFault: Option<Error>)
    requires UniqueKeys(rows)
    ensures UniqueKeys(Submit(username, metaError, current, rows, insertFault).rows)
  {
    var r := Submit(username, metaError, current, rows, insertFault);
    if r.pushed == [DashboardPath] {
      var user := current.user.value;
      var slug := Candidate(BaseSlug(username), FirstFree(BaseSlug(username), Slugs(rows), 0));
      AppendKeepsUnique(rows, Profile(user.id, user.email, username, slug));
    }
  }

  /** The setup page's own state: the message shown, the busy flag, and the
      destinations pushed to the router so far. */
  class SetupPage {
    var message: string
    var loading: bool
    var pushed: seq<string>

    constructor ()
      ensures message == [] && !loading && pushed == []
    {
      message := [];
      loading := false;
      pushed := [];
    }

    /** `handleSubmit`. The metadata update and `getUser()` are the provider's
        answers, given as inputs; the probes and the insert go to `profiles`. */
    method HandleSubmit(username: string, profiles: ProfileTable, metaError: Option<Error>,
                        current: UserResult, insertFault: Option<Error>)
      requires profiles.Valid()
      modifies this, profiles
      ensures profiles.Valid() && !loading
      ensures var s := Submit(username, metaError, current, old(profiles.rows), insertFault);
        message == s.message && pushed == old(pushed) + s.pushed && profiles.rows == s.rows
    {
      loading := true;
      message := [];
      if metaError.Some? {
        message := Shown(metaError.value.message);
      } else if current.error.Some? {
        message := Shown(current.error.value.message);
      } else if current.user.None? {
        message := Shown(NoUser);
      } else {
        var user := current.user.value;
        var base := BaseSlug(username);
        var slug, i := AllocateSlug(profiles, base);
        var err := profiles.Insert(Profile(user.id, user.email, username, slug), insertFault);
        if err.Some? {
          if err.value.code == UniqueViolation {
            message := SlugTaken;
          } else {
            message := Shown(err.value.message);
          }
        } else {
          pushed := pushed + [DashboardPath];
        }
      }
      loading := false;
    }
  }
}
