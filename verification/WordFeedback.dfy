/** Per-letter feedback on a guess with repeated letters, and the solver that filters a dictionary by it. */
module WordFeedback {
  import opened Basics

  datatype Verdict = Match | Exists | Absent

  // --- what feedback means --------------------------------------------------------------------

  /** Copies of c among the first n letters. */
  ghost function Copies(word: string, c: char, n: nat): nat
    requires n <= |word|
  {
    if n == 0 then 0 else Copies(word, c, n - 1) + if word[n - 1] == c then 1 else 0
  }

  /** Copies of c guessed among the first n positions and not called absent. */
  ghost function Credited(guess: string, fb: seq<Verdict>, c: char, n: nat): nat
    requires n <= |guess| <= |fb|
  {
    if n == 0 then 0 else Credited(guess, fb, c, n - 1) + if guess[n - 1] == c && fb[n - 1] != Absent then 1 else 0
  }

  /** Matches are the equal positions. */
  ghost predicate MarksMatches(secret: string, guess: string, fb: seq<Verdict>)
    requires |secret| == |guess|
  {
    |fb| == |guess| && forall i :: 0 <= i < |fb| ==> (fb[i] == Match <==> guess[i] == secret[i])
  }

  /** Of the copies of a letter that do not match, the leftmost are the ones credited. */
  ghost predicate LeftFirst(guess: string, fb: seq<Verdict>)
    requires |fb| == |guess|
  {
    forall i, j :: 0 <= i < j < |fb| && guess[i] == guess[j] && fb[i] == Absent ==> fb[j] != Exists
  }

  /** And a letter is credited, matched and existing together, the lesser of its counts in the two words. */
  ghost predicate IsFeedback(secret: string, guess: string, fb: seq<Verdict>)
    requires |secret| == |guess|
  {
    MarksMatches(secret, guess, fb) && LeftFirst(guess, fb) &&
    forall c :: Credited(guess, fb, c, |guess|) == Min(Copies(secret, c, |secret|), Copies(guess, c, |guess|))
  }

  /** Where b first calls absent a letter that a credits, b's later credits of it are matches, and a has those too. */
  lemma {:induction false} CreditsFallBehind(secret: string, guess: string, a: seq<Verdict>, b: seq<Verdict>,
                                             i: nat, n: nat)
    requires |secret| == |guess| && MarksMatches(secret, guess, a) && MarksMatches(secret, guess, b)
    requires LeftFirst(guess, b)
    requires i < n <= |guess| && a[..i] == b[..i] && a[i] == Exists && b[i] == Absent
    ensures Credited(guess, a, guess[i], n) > Credited(guess, b, guess[i], n)
    decreases n
  {
    if n == i + 1 {
      SamePrefixSameCredits(guess, a, b, guess[i], i);
    } else {
      CreditsFallBehind(secret, guess, a, b, i, n - 1);
      assert guess[n - 1] == guess[i] ==> b[n - 1] != Exists;
    }
  }

  lemma {:induction false} SamePrefixSameCredits(guess: string, a: seq<Verdict>, b: seq<Verdict>, c: char, n: nat)
    requires |a| == |b| == |guess| && n <= |guess| && forall i :: 0 <= i < n ==> a[i] == b[i]
    ensures Credited(guess, a, c, n) == Credited(guess, b, c, n)
  {
    if n > 0 {
      SamePrefixSameCredits(guess, a, b, c, n - 1);
    }
  }

  /** The three conditions leave one answer. */
  lemma FeedbackIsUnique(secret: string, guess: string, a: seq<Verdict>, b: seq<Verdict>)
    requires |secret| == |guess| && IsFeedback(secret, guess, a) && IsFeedback(secret, guess, b)
    ensures a == b
  {
    AgreeUpTo(secret, guess, a, b, |guess|);
    assert a[..|guess|] == a && b[..|guess|] == b;
  }

  lemma {:induction false} AgreeUpTo(secret: string, guess: string, a: seq<Verdict>, b: seq<Verdict>, n: nat)
    requires |secret| == |guess| && IsFeedback(secret, guess, a) && IsFeedback(secret, guess, b) && n <= |guess|
    ensures a[..n] == b[..n]
  {
    if n > 0 {
      AgreeUpTo(secret, guess, a, b, n - 1);
      var i := n - 1;
      if a[i] == Exists && b[i] == Absent {
        CreditsFallBehind(secret, guess, a, b, i, |guess|);
      } else if a[i] == Absent && b[i] == Exists {
        CreditsFallBehind(secret, guess, b, a, i, |guess|);
      }
      assert a[..n] == a[..i] + [a[i]] && b[..n] == b[..i] + [b[i]];
    }
  }

  // --- the two passes -------------------------------------------------------------------------

  /** Copies of c matched in the first n positions. */
  ghost function Matched(secret: string, guess: string, c: char, n: nat): nat
    requires n <= |secret| == |guess|
  {
    if n == 0 then 0
    else Matched(secret, guess, c, n - 1) + if guess[n - 1] == secret[n - 1] == c then 1 else 0
  }

  /** Copies of c in word, one of the two, at the positions that do not match. */
  ghost function LeftOver(secret: string, guess: string, word: string, c: char, n: nat): nat
    requires n <= |secret| == |guess| == |word|
  {
    if n == 0 then 0
    else LeftOver(secret, guess, word, c, n - 1) + if guess[n - 1] != secret[n - 1] && word[n - 1] == c then 1 else 0
  }

  lemma {:induction false} WordsSplit(secret: string, guess: string, c: char, n: nat)
    requires n <= |secret| == |guess|
    ensures Copies(secret, c, n) == Matched(secret, guess, c, n) + LeftOver(secret, guess, secret, c, n)
    ensures Copies(guess, c, n) == Matched(secret, guess, c, n) + LeftOver(secret, guess, guess, c, n)
  {
    if n > 0 {
      WordsSplit(secret, guess, c, n - 1);
    }
  }

  /** Pass 2 before position i: spare letters of the secret go to the guess's unmatched copies, first come first
      served. */
  ghost predicate Claiming(secret: string, guess: string, fb: seq<Verdict>, remaining: multiset<char>, i: nat)
    requires i <= |guess| == |secret|
  {
    MarksMatches(secret, guess, fb) &&
    (forall k :: i <= k < |fb| ==> fb[k] != Exists) &&
    (forall j, k :: 0 <= j < k < i && guess[j] == guess[k] && fb[j] == Absent ==> fb[k] != Exists) &&
    (forall k :: 0 <= k < i && fb[k] == Absent ==> remaining[guess[k]] == 0) &&
    forall c :: Balanced(secret, guess, fb, remaining, c, i)
  }

  ghost predicate Balanced(secret: string, guess: string, fb: seq<Verdict>, remaining: multiset<char>, c: char, i: nat)
    requires i <= |guess| == |secret| == |fb|
  {
    var spare := LeftOver(secret, guess, secret, c, |secret|);
    var wanted := LeftOver(secret, guess, guess, c, i);
    remaining[c] == spare - Min(spare, wanted) &&
    Credited(guess, fb, c, i) == Matched(secret, guess, c, i) + Min(spare, wanted)
  }

  /** A matched position, or one whose letter is used up: nothing changes hands. */
  lemma PassOver(secret: string, guess: string, fb: seq<Verdict>, remaining: multiset<char>, i: nat)
    requires i < |guess| == |secret| && Claiming(secret, guess, fb, remaining, i)
    requires fb[i] == Match || remaining[guess[i]] == 0
    ensures Claiming(secret, guess, fb, remaining, i + 1)
  {
    var next := i + 1;
    forall c ensures Balanced(secret, guess, fb, remaining, c, next) {
      assert Balanced(secret, guess, fb, remaining, c, i);
    }
  }

  lemma Claim(secret: string, guess: string, fb: seq<Verdict>, remaining: multiset<char>, i: nat)
    requires i < |guess| == |secret| && Claiming(secret, guess, fb, remaining, i)
    requires fb[i] != Match && remaining[guess[i]] > 0
    ensures Claiming(secret, guess, fb[i := Exists], remaining - multiset{guess[i]}, i + 1)
  {
    var fb', remaining' := fb[i := Exists], remaining - multiset{guess[i]};
    var next := i + 1;
    forall c ensures Balanced(secret, guess, fb', remaining', c, next) {
      assert Balanced(secret, guess, fb, remaining, c, i);
      SamePrefixSameCredits(guess, fb, fb', c, i);
    }
  }

  lemma AllClaimed(secret: string, guess: string, fb: seq<Verdict>, remaining: multiset<char>)
    requires |guess| == |secret| && Claiming(secret, guess, fb, remaining, |guess|)
    ensures IsFeedback(secret, guess, fb)
  {
    forall c ensures Credited(guess, fb, c, |guess|) == Min(Copies(secret, c, |secret|), Copies(guess, c, |guess|)) {
      assert Balanced(secret, guess, fb, remaining, c, |guess|);
      WordsSplit(secret, guess, c, |guess|);
    }
  }

  method Feedback(secret: string, guess: string) returns (result: seq<Verdict>)
    requires |secret| == |guess|
    ensures IsFeedback(secret, guess, result)
  {
    var n := |secret|;
    result := seq(n, _ => Absent);
    var remaining: multiset<char> := multiset{};
    for i := 0 to n
      invariant |result| == n && forall c :: remaining[c] == LeftOver(secret, guess, secret, c, i)
      invariant forall k :: 0 <= k < i ==> result[k] == if guess[k] == secret[k] then Match else Absent
      invariant forall k :: i <= k < n ==> result[k] == Absent
    {
      if guess[i] == secret[i] {
        result := result[i := Match];
      } else {
        remaining := remaining + multiset{secret[i]};
      }
    }

    assert forall c :: Balanced(secret, guess, result, remaining, c, 0);
    for i := 0 to n
      invariant Claiming(secret, guess, result, remaining, i)
    {
      if result[i] == Match {
        PassOver(secret, guess, result, remaining, i);
        continue;
      }
      if remaining[guess[i]] > 0 {
        Claim(secret, guess, result, remaining, i);
        result := result[i := Exists];
        remaining := remaining - multiset{guess[i]};
      } else {
        PassOver(secret, guess, result, remaining, i);
      }
    }
    AllClaimed(secret, guess, result, remaining);
  }

  // --- the solver -----------------------------------------------------------------------------

  datatype Clue = Clue(guess: string, fb: seq<Verdict>)

  /** As the secret, word would have given this feedback. */
  ghost predicate Consistent(word: string, clue: Clue) {
    |word| == |clue.guess| && IsFeedback(word, clue.guess, clue.fb)
  }

  ghost predicate ConsistentWithAll(word: string, clues: seq<Clue>) {
    forall i :: 0 <= i < |clues| ==> Consistent(word, clues[i])
  }

  /** The words that pass one clue, in order. */
  ghost function Kept(words: seq<string>, clue: Clue): seq<string> {
    if words == [] then []
    else
      var rest, w := words[..|words| - 1], words[|words| - 1];
      Kept(rest, clue) + if Consistent(w, clue) then [w] else []
  }

  /** What observing the clues one after the other leaves. */
  ghost function KeptByAll(words: seq<string>, clues: seq<Clue>): seq<string> {
    if clues == [] then words else Kept(KeptByAll(words, clues[..|clues| - 1]), clues[|clues| - 1])
  }

  lemma {:induction false} KeptPush(words: seq<string>, w: string, clues: seq<Clue>)
    ensures KeptByAll(words + [w], clues) == KeptByAll(words, clues) + if ConsistentWithAll(w, clues) then [w] else []
  {
    if clues != [] {
      var before, last := clues[..|clues| - 1], clues[|clues| - 1];
      KeptPush(words, w, before);
      assert ConsistentWithAll(w, clues) <==> ConsistentWithAll(w, before) && Consistent(w, last);
      var kept := KeptByAll(words, before);
      if ConsistentWithAll(w, before) {
        assert (kept + [w])[..|kept|] == kept;
      } else {
        assert kept + [] == kept;
      }
    }
  }

  lemma {:induction false} KeptNone(clues: seq<Clue>)
    ensures KeptByAll([], clues) == []
  {
    if clues != [] {
      KeptNone(clues[..|clues| - 1]);
    }
  }

  /** The same clues in any order, repeated or not, leave the same candidates in the same order. */
  lemma {:induction false} OrderOfCluesIsIrrelevant(words: seq<string>, a: seq<Clue>, b: seq<Clue>)
    requires forall clue :: clue in a <==> clue in b
    ensures KeptByAll(words, a) == KeptByAll(words, b)
  {
    if words == [] {
      KeptNone(a);
      KeptNone(b);
    } else {
      var before, w := words[..|words| - 1], words[|words| - 1];
      assert words == before + [w];
      OrderOfCluesIsIrrelevant(before, a, b);
      KeptPush(before, w, a);
      KeptPush(before, w, b);
      assert ConsistentWithAll(w, a) <==> forall clue :: clue in a ==> Consistent(w, clue);
      assert ConsistentWithAll(w, b) <==> forall clue :: clue in b ==> Consistent(w, clue);
    }
  }

  /** The candidates are the words every clue allows; a secret that gave the clues is therefore never dropped. */
  lemma {:induction false} CandidatesAreConsistent(words: seq<string>, clues: seq<Clue>, w: string)
    ensures w in KeptByAll(words, clues) <==> w in words && ConsistentWithAll(w, clues)
  {
    if words == [] {
      KeptNone(clues);
    } else {
      var before, last := words[..|words| - 1], words[|words| - 1];
      assert words == before + [last];
      CandidatesAreConsistent(before, clues, w);
      KeptPush(before, last, clues);
    }
  }

  class CandidateFilter {
    var candidates: seq<string>
    ghost var words: seq<string>
    ghost var clues: seq<Clue>

    /** Equal-length words, of which the candidates are those the clues have left. */
    ghost predicate Valid(length: nat)
      reads this
    {
      (forall i :: 0 <= i < |candidates| ==> |candidates[i]| == length) && candidates == KeptByAll(words, clues)
    }

    constructor (words: seq<string>, ghost length: nat)
      requires forall i :: 0 <= i < |words| ==> |words[i]| == length
      ensures Valid(length) && this.words == words && clues == []
    {
      candidates := words;
      this.words, clues := words, [];
    }

    method Observe(guess: string, fb: seq<Verdict>)
      requires Valid(|guess|)
      modifies this
      ensures Valid(|guess|) && words == old(words) && clues == old(clues) + [Clue(guess, fb)]
    {
      ghost var clue := Clue(guess, fb);
      var kept := [];
      for i := 0 to |candidates|
        invariant candidates == old(candidates) && words == old(words) && clues == old(clues)
        invariant kept == Kept(candidates[..i], clue)
        invariant forall k :: 0 <= k < |kept| ==> |kept[k]| == |guess|
      {
        var w := candidates[i];
        assert candidates[..i + 1][..i] == candidates[..i];
        var played := Feedback(w, guess);
        if IsFeedbackOf(w, guess, fb, played) {
          kept := kept + [w];
        }
      }
      assert candidates[..|candidates|] == candidates;
      assert (clues + [clue])[..|clues|] == clues;
      candidates := kept;
      clues := clues + [clue];
    }
  }

  /** Comparing with the feedback played is asking whether fb is the feedback. */
  predicate IsFeedbackOf(w: string, guess: string, fb: seq<Verdict>, played: seq<Verdict>)
    requires |w| == |guess| && IsFeedback(w, guess, played)
    ensures IsFeedbackOf(w, guess, fb, played) <==> IsFeedback(w, guess, fb)
  {
    assert IsFeedback(w, guess, fb) ==> fb == played by {
      if IsFeedback(w, guess, fb) { FeedbackIsUnique(w, guess, fb, played); }
    }
    played == fb
  }
}
