/** `detail::scan_keyword` of date.h: read from a stream the keyword, of several, that matches
    the most characters, without regard to case. */
module Keyword {

  datatype Status = DoesntMatch | MightMatch | DoesMatch

  /** `toupper` in the classic locale. */
  function Upper(c: char): char {
    if 'a' <= c <= 'z' then c - 'a' + 'A' else c
  }

  /** Two characters are the same but for case: equal, or a letter 'A' to 'Z' and the one 32 above. */
  predicate SameLetter(a: char, b: char) {
    || a == b
    || ('A' <= a <= 'Z' && b as int == a as int + 32)
    || ('A' <= b <= 'Z' && a as int == b as int + 32)
  }

  /** Characters that `toupper` makes equal are the same but for case, and no others. */
  lemma UpperFoldsCase(a: char, b: char)
    ensures Upper(a) == Upper(b) <==> SameLetter(a, b)
  {
  }

  /** The first `n` characters of the input begin the keyword, but for case. */
  predicate Begins(kw: string, input: string, n: nat) {
    n <= |input| && n <= |kw| && forall i :: 0 <= i < n ==> SameLetter(kw[i], input[i])
  }

  /** They are the keyword. */
  predicate Spells(kw: string, input: string, n: nat) {
    |kw| == n && Begins(kw, input, n)
  }

  predicate BeginsSome(kws: seq<string>, input: string, n: nat) {
    exists k :: 0 <= k < |kws| && Begins(kws[k], input, n)
  }

  /** `n` characters are consumed: they begin some keyword, and one more would begin none. */
  ghost predicate LongestMunch(kws: seq<string>, input: string, n: nat) {
    (n > 0 ==> BeginsSome(kws, input, n)) && forall m: nat :: m > n ==> !BeginsSome(kws, input, m)
  }

  predicate FirstSpelled(kws: seq<string>, input: string, n: nat, k: nat) {
    && k <= |kws|
    && (k < |kws| ==> Spells(kws[k], input, n))
    && forall j :: 0 <= j < k ==> !Spells(kws[j], input, n)
  }

  /** Some keyword begins with the `n` characters and goes on. */
  predicate Unfinished(kws: seq<string>, input: string, n: nat) {
    exists k :: 0 <= k < |kws| && Begins(kws[k], input, n) && n < |kws[k]|
  }

  /** What is consumed is determined, and so is the keyword that is found. */
  lemma MunchIsUnique(kws: seq<string>, input: string, n: nat, n': nat, k: nat, k': nat)
    requires LongestMunch(kws, input, n) && LongestMunch(kws, input, n')
    requires FirstSpelled(kws, input, n, k) && FirstSpelled(kws, input, n', k')
    ensures n == n' && k == k'
  {
  }

  /** Inputs that differ only in case are consumed alike and find the same keyword. */
  lemma CaseDoesNotMatter(kws: seq<string>, input: string, input': string, n: nat, k: nat)
    requires |input| == |input'| && forall i :: 0 <= i < |input| ==> SameLetter(input[i], input'[i])
    ensures LongestMunch(kws, input, n) <==> LongestMunch(kws, input', n)
    ensures FirstSpelled(kws, input, n, k) <==> FirstSpelled(kws, input', n, k)
    ensures Unfinished(kws, input, n) <==> Unfinished(kws, input', n)
  {
    forall kw: string, m: nat ensures Begins(kw, input, m) <==> Begins(kw, input', m) {
      SameBegins(kw, input, input', m);
    }
    hide Begins;
    forall m: nat ensures BeginsSome(kws, input, m) <==> BeginsSome(kws, input', m) {
    }
  }

  lemma SameBegins(kw: string, input: string, input': string, n: nat)
    requires |input| == |input'| && forall i :: 0 <= i < |input| ==> SameLetter(input[i], input'[i])
    ensures Begins(kw, input, n) <==> Begins(kw, input', n)
  {
    forall i | 0 <= i < n && n <= |kw| && n <= |input|
      ensures SameLetter(kw[i], input[i]) <==> SameLetter(kw[i], input'[i])
    {
      UpperFoldsCase(kw[i], input[i]);
      UpperFoldsCase(kw[i], input'[i]);
      UpperFoldsCase(input[i], input'[i]);
    }
  }

  /** Nothing longer is to be found once one more character begins no keyword. */
  lemma StuckIsLongest(kws: seq<string>, input: string, n: nat)
    requires n > 0 ==> BeginsSome(kws, input, n)
    requires !BeginsSome(kws, input, n + 1)
    ensures LongestMunch(kws, input, n)
  {
  }

  /** The statuses after `n` characters have been consumed. */
  predicate StatusAfter(kw: string, input: string, n: nat, st: Status) {
    st == if !Begins(kw, input, n) then DoesntMatch else if |kw| == n then DoesMatch else MightMatch
  }

  /** The two counters agree with the statuses. */
  ghost predicate Counted(s: seq<Status>, mightMatch: nat, doesMatch: nat) {
    mightMatch == multiset(s)[MightMatch] && doesMatch == multiset(s)[DoesMatch]
  }

  function One(b: bool): int { if b then 1 else 0 }

  lemma CountUpdate(s: seq<Status>, k: nat, x: Status, mightMatch: nat, doesMatch: nat)
    requires k < |s| && Counted(s, mightMatch, doesMatch)
    ensures s[k] == MightMatch ==> mightMatch > 0
    ensures s[k] == DoesMatch ==> doesMatch > 0
    ensures var m := mightMatch - One(s[k] == MightMatch) + One(x == MightMatch);
            var d := doesMatch - One(s[k] == DoesMatch) + One(x == DoesMatch);
            m >= 0 && d >= 0 && Counted(s[k := x], m, d)
  {
  }

  lemma CountAppend(s: seq<Status>, x: Status, mightMatch: nat, doesMatch: nat)
    requires Counted(s, mightMatch, doesMatch)
    ensures Counted(s + [x], mightMatch + One(x == MightMatch), doesMatch + One(x == DoesMatch))
  {
  }

  /** Before any character: an empty keyword matches already. */
  method InitStatuses(kws: seq<string>, input: string, status: array<Status>)
    returns (mightMatch: nat, doesMatch: nat)
    requires status.Length == |kws|
    modifies status
    ensures forall k :: 0 <= k < |kws| ==> StatusAfter(kws[k], input, 0, status[k])
    ensures Counted(status[..], mightMatch, doesMatch)
  {
    mightMatch, doesMatch := |kws|, 0;
    var k := 0;
    ghost var done: seq<Status> := [];
    assert Counted(done, 0, 0);
    hide Counted, StatusAfter;
    while k < |kws|
      invariant 0 <= k == |done| <= |kws|
      invariant forall j :: 0 <= j < k ==> status[j] == done[j] && StatusAfter(kws[j], input, 0, done[j])
      invariant mightMatch >= |kws| - k && Counted(done, mightMatch - (|kws| - k), doesMatch)
    {
      ghost var x := if kws[k] != "" then MightMatch else DoesMatch;
      CountAppend(done, x, mightMatch - (|kws| - k), doesMatch);
      StatusAtStart(kws[k], input);
      if kws[k] != "" {
        status[k] := MightMatch;
      } else {
        status[k] := DoesMatch;
        mightMatch := mightMatch - 1;
        doesMatch := doesMatch + 1;
      }
      done := done + [x];
      k := k + 1;
    }
    assert status[..] == done;
  }

  lemma StatusAtStart(kw: string, input: string)
    ensures StatusAfter(kw, input, 0, if kw != "" then MightMatch else DoesMatch)
  {
  }

  /** The status of a keyword once the next character has been compared, before stale matches go. */
  predicate StatusCompared(kw: string, input: string, n: nat, st: Status) {
    st == if Begins(kw, input, n + 1) then if |kw| == n + 1 then DoesMatch else MightMatch
          else if Spells(kw, input, n) then DoesMatch else DoesntMatch
  }

  /** The first `k` statuses are of keywords compared, the others not yet. */
  ghost predicate ComparedUpTo(kws: seq<string>, input: string, indx: nat, s: seq<Status>, k: nat) {
    && |s| == |kws|
    && (forall j :: 0 <= j < k && j < |kws| ==> StatusCompared(kws[j], input, indx, s[j]))
    && (forall j :: k <= j < |kws| ==> StatusAfter(kws[j], input, indx, s[j]))
  }

  lemma MightGoOn(kws: seq<string>, input: string, indx: nat, s: seq<Status>, k: nat)
    requires k < |kws| && ComparedUpTo(kws, input, indx, s, k)
    ensures |s| == |kws| && (s[k] == MightMatch ==> indx < |kws[k]|)
  {
  }

  /** What the comparison makes of one status. */
  function Compared(kw: string, input: string, indx: nat, st: Status): Status
    requires indx < |input| && (st == MightMatch ==> indx < |kw|)
  {
    if st != MightMatch then st
    else if Upper(input[indx]) != Upper(kw[indx]) then DoesntMatch
    else if |kw| == indx + 1 then DoesMatch else MightMatch
  }

  lemma ComparisonAdvances(kws: seq<string>, input: string, indx: nat, s: seq<Status>, k: nat, x: Status)
    requires k < |kws| == |s| && indx < |input| && ComparedUpTo(kws, input, indx, s, k)
    requires s[k] == MightMatch ==> indx < |kws[k]|
    requires x == Compared(kws[k], input, indx, s[k])
    ensures ComparedUpTo(kws, input, indx, s[k := x], k + 1)
    ensures s[k] == MightMatch && x != DoesntMatch <==> Begins(kws[k], input, indx + 1)
  {
    if s[k] == MightMatch {
      UpperFoldsCase(input[indx], kws[k][indx]);
      UpperFoldsCase(kws[k][indx], input[indx]);
    }
    hide Upper, SameLetter;
  }

  /** Compare the next character with that of each keyword that might match. */
  method CompareCharacter(kws: seq<string>, input: string, indx: nat, status: array<Status>,
      nMight: nat, nDoes: nat) returns (consume: bool, mightMatch: nat, doesMatch: nat)
    requires status.Length == |kws| && indx < |input|
    requires forall k :: 0 <= k < |kws| ==> StatusAfter(kws[k], input, indx, status[k])
    requires Counted(status[..], nMight, nDoes)
    modifies status
    ensures forall k :: 0 <= k < |kws| ==> StatusCompared(kws[k], input, indx, status[k])
    ensures consume <==> BeginsSome(kws, input, indx + 1)
    ensures Counted(status[..], mightMatch, doesMatch)
  {
    consume, mightMatch, doesMatch := false, nMight, nDoes;
    var c := Upper(input[indx]);
    var k := 0;
    ghost var s := status[..];
    assert ComparedUpTo(kws, input, indx, s, 0);
    hide Begins, Upper, ComparedUpTo, Counted;
    while k < |kws|
      invariant 0 <= k <= |kws| == |s| && forall j :: 0 <= j < |s| ==> status[j] == s[j]
      invariant ComparedUpTo(kws, input, indx, s, k)
      invariant consume <==> exists j :: 0 <= j < k && Begins(kws[j], input, indx + 1)
      invariant Counted(s, mightMatch, doesMatch)
    {
      MightGoOn(kws, input, indx, s, k);
      ghost var x := Compared(kws[k], input, indx, s[k]);
      ComparisonAdvances(kws, input, indx, s, k, x);
      CountUpdate(s, k, x, mightMatch, doesMatch);
      if status[k] == MightMatch {
        if c == Upper(kws[k][indx]) {
          consume := true;
          if |kws[k]| == indx + 1 {
            status[k] := DoesMatch;
            mightMatch := mightMatch - 1;
            doesMatch := doesMatch + 1;
          }
        } else {
          status[k] := DoesntMatch;
          mightMatch := mightMatch - 1;
        }
      }
      s := s[k := x];
      k := k + 1;
    }
    ComparedAll(kws, input, indx, s);
    assert status[..] == s;
  }

  lemma ComparedAll(kws: seq<string>, input: string, indx: nat, s: seq<Status>)
    requires ComparedUpTo(kws, input, indx, s, |kws|)
    ensures |s| == |kws| && forall j :: 0 <= j < |kws| ==> StatusCompared(kws[j], input, indx, s[j])
  {
  }

  /** Drop the keywords that matched before the character just consumed. */
  method DropStale(kws: seq<string>, input: string, indx: nat, status: array<Status>, mightMatch: nat, nDoes: nat)
    returns (doesMatch: nat)
    requires status.Length == |kws|
    requires forall k :: 0 <= k < |kws| ==> StatusCompared(kws[k], input, indx, status[k])
    requires Counted(status[..], mightMatch, nDoes)
    modifies status
    ensures forall k :: 0 <= k < |kws| ==> StatusAfter(kws[k], input, indx + 1, status[k])
    ensures Counted(status[..], mightMatch, doesMatch)
  {
    hide Counted;
    doesMatch := nDoes;
    var k := 0;
    while k < |kws|
      invariant 0 <= k <= |kws|
      invariant forall j :: 0 <= j < k ==> StatusAfter(kws[j], input, indx + 1, status[j])
      invariant forall j :: k <= j < |kws| ==> StatusCompared(kws[j], input, indx, status[j])
      invariant Counted(status[..], mightMatch, doesMatch)
    {
      if status[k] == DoesMatch && |kws[k]| != indx + 1 {
        ghost var s := status[..];
        CountUpdate(s, k, DoesntMatch, mightMatch, doesMatch);
        status[k] := DoesntMatch;
        assert status[..] == s[k := DoesntMatch];
        doesMatch := doesMatch - 1;
      }
      k := k + 1;
    }
  }

  /** Two keywords that match or might are counted as two. */
  lemma TwoAreCounted(s: seq<Status>, i: int, j: int)
    requires 0 <= i < j < |s| && s[i] != DoesntMatch && s[j] != DoesntMatch
    ensures multiset(s)[MightMatch] + multiset(s)[DoesMatch] >= 2
  {
    assert s == s[..i] + [s[i]] + s[i + 1..j] + [s[j]] + s[j + 1..];
  }

  /** When no more than one keyword is left, none of the matches is stale. */
  lemma NoneStale(kws: seq<string>, input: string, n: nat, s: seq<Status>)
    requires |s| == |kws| && forall k :: 0 <= k < |kws| ==> StatusCompared(kws[k], input, n, s[k])
    requires BeginsSome(kws, input, n + 1)
    requires multiset(s)[MightMatch] + multiset(s)[DoesMatch] <= 1
    ensures forall k :: 0 <= k < |kws| ==> StatusAfter(kws[k], input, n + 1, s[k])
  {
    var j :| 0 <= j < |kws| && Begins(kws[j], input, n + 1);
    forall k | 0 <= k < |kws| ensures StatusAfter(kws[k], input, n + 1, s[k]) {
      if k < j && s[k] != DoesntMatch {
        TwoAreCounted(s, k, j);
      } else if j < k && s[k] != DoesntMatch {
        TwoAreCounted(s, j, k);
      }
    }
  }

  /** As long as some keyword might match, and no longer, the text read so far begins one and
      does not end it. */
  lemma MightMatchIsUnfinished(kws: seq<string>, input: string, n: nat, s: seq<Status>)
    requires |s| == |kws| && forall k :: 0 <= k < |kws| ==> StatusAfter(kws[k], input, n, s[k])
    ensures multiset(s)[MightMatch] > 0 <==> Unfinished(kws, input, n)
    ensures BeginsSome(kws, input, n + 1) ==> Unfinished(kws, input, n) && n < |input|
  {
  }

  /** The statuses tell which keywords are spelled by what was consumed, and, as long as some
      might match, everything about the others. */
  ghost predicate Scanning(kws: seq<string>, input: string, indx: nat, consumed: nat, s: seq<Status>) {
    && |s| == |kws|
    && consumed <= indx <= |input|
    && (consumed > 0 ==> BeginsSome(kws, input, consumed))
    && (forall k :: 0 <= k < |kws| ==> (s[k] == DoesMatch <==> Spells(kws[k], input, consumed)))
    && (if multiset(s)[MightMatch] > 0
        then indx == consumed && forall k :: 0 <= k < |kws| ==> StatusAfter(kws[k], input, consumed, s[k])
        else !BeginsSome(kws, input, consumed + 1) && (consumed < |input| || !Unfinished(kws, input, consumed)))
  }

  lemma ScanningAfter(kws: seq<string>, input: string, n: nat, s: seq<Status>)
    requires |s| == |kws| && n <= |input| && (n > 0 ==> BeginsSome(kws, input, n))
    requires forall k :: 0 <= k < |kws| ==> StatusAfter(kws[k], input, n, s[k])
    ensures Scanning(kws, input, n, n, s)
  {
  }

  /** A character that goes with no keyword leaves none that might match. */
  lemma ScanningStuck(kws: seq<string>, input: string, n: nat, s: seq<Status>)
    requires |s| == |kws| && n < |input| && (n > 0 ==> BeginsSome(kws, input, n))
    requires forall k :: 0 <= k < |kws| ==> StatusCompared(kws[k], input, n, s[k])
    requires !BeginsSome(kws, input, n + 1)
    ensures Scanning(kws, input, n + 1, n, s)
  {
  }

  /** Scan the input for one of the keywords: the position of the keyword found, or the number
      of keywords with the stream failed; the characters consumed; whether the end was met.
      `good` tells whether the stream could be read to begin with. */
  method ScanKeyword(input: string, good: bool, kws: seq<string>)
    returns (found: nat, consumed: nat, eof: bool, fail: bool)
    ensures FirstSpelled(kws, input, consumed, found)
    ensures fail <==> found == |kws|
    ensures if good then LongestMunch(kws, input, consumed) else consumed == 0 && !eof
    ensures eof <==> good && consumed == |input| && Unfinished(kws, input, consumed)
  {
    hide Begins, Upper, StatusAfter, StatusCompared, BeginsSome, LongestMunch, Unfinished;
    var status := new Status[|kws|];
    var mightMatch, doesMatch := InitStatuses(kws, input, status);
    consumed, eof := 0, false;
    var indx := 0;
    ScanningAfter(kws, input, 0, status[..]);
    while good && mightMatch > 0
      invariant Counted(status[..], mightMatch, doesMatch)
      invariant Scanning(kws, input, indx, consumed, status[..])
      invariant !good ==> consumed == 0
      decreases |input| - indx
    {
      if indx == |input| {
        eof := true;
        MightMatchIsUnfinished(kws, input, consumed, status[..]);
        break;
      }
      var consume;
      consume, mightMatch, doesMatch := CompareCharacter(kws, input, indx, status, mightMatch, doesMatch);
      if consume {
        consumed := consumed + 1;
        if mightMatch + doesMatch > 1 {
          doesMatch := DropStale(kws, input, indx, status, mightMatch, doesMatch);
        } else {
          NoneStale(kws, input, indx, status[..]);
        }
        ScanningAfter(kws, input, indx + 1, status[..]);
      } else {
        ScanningStuck(kws, input, indx, status[..]);
      }
      indx := indx + 1;
    }
    assert eof <==> good && consumed == |input| && Unfinished(kws, input, consumed);
    if good {
      StuckIsLongest(kws, input, consumed);
    }
    found := 0;
    while found < |kws| && status[found] != DoesMatch
      invariant found <= |kws|
      invariant forall j :: 0 <= j < found ==> !Spells(kws[j], input, consumed)
    {
      found := found + 1;
    }
    fail := found == |kws|;
  }
}
