/**
 Optimal hangman: the minimax solver, its memo table, the greedy guesser and the simulator.
 A word is a string; a puzzle state is the set of remaining words and the revealed pattern,
 in which '_' marks a hidden slot.
 */
module Hangman {
  import opened Basics

  type Signature = seq<nat>

  // --- puzzle mechanics -------------------------------------------------------------------

  /** The positions from k on where letter stands in word, ascending. */
  function SignatureFrom(word: string, letter: char, k: nat): (sig: Signature)
    requires k <= |word|
    ensures forall i :: i in sig <==> k <= i < |word| && word[i] == letter
    ensures forall a, b :: 0 <= a < b < |sig| ==> sig[a] < sig[b]
    decreases |word| - k
  {
    if k == |word| then [] else
      var rest := SignatureFrom(word, letter, k + 1);
      assert forall b :: 0 <= b < |rest| ==> rest[b] in rest;
      if word[k] == letter then [k] + rest else rest
  }

  function Sig(word: string, letter: char): (sig: Signature)
    ensures forall i :: i in sig <==> 0 <= i < |word| && word[i] == letter
  {
    SignatureFrom(word, letter, 0)
  }

  /** The words the announcement sig leaves. */
  function Group(words: set<string>, letter: char, sig: Signature): set<string> {
    set w | w in words && Sig(w, letter) == sig
  }

  /** The announcements open to the chooser. */
  function Sigs(words: set<string>, letter: char): set<Signature> {
    set w | w in words :: Sig(w, letter)
  }

  /** revealed with letter written in at the positions of sig. */
  function Reveal(revealed: string, letter: char, sig: Signature): (r: string)
    ensures |r| == |revealed|
    ensures forall i :: 0 <= i < |r| ==> r[i] == if i in sig then letter else revealed[i]
  {
    seq(|revealed|, i requires 0 <= i < |revealed| => if i in sig then letter else revealed[i])
  }

  /** Groups the words by signature. */
  method Partition(words: set<string>, letter: char) returns (groups: map<Signature, set<string>>)
    ensures groups.Keys == Sigs(words, letter)
    ensures forall sig :: sig in groups ==> groups[sig] == Group(words, letter, sig)
  {
    groups := map[];
    var rest := words;
    while rest != {}
      invariant rest <= words
      invariant groups.Keys == Sigs(words - rest, letter)
      invariant forall sig :: sig in groups ==> groups[sig] == Group(words - rest, letter, sig)
      decreases rest
    {
      var word :| word in rest;
      var sig := Sig(word, letter);
      var done := words - rest;
      rest := rest - {word};
      assert words - rest == done + {word};
      assert Sigs(done + {word}, letter) == Sigs(done, letter) + {sig};
      assert forall s :: Group(done + {word}, letter, s) == Group(done, letter, s) + if s == sig then {word} else {};
      assert sig !in groups ==> Group(done, letter, sig) == {};
      groups := groups[sig := (if sig in groups then groups[sig] else {}) + {word}];
    }
    assert words - rest == words;
  }

  /** Writes letter into a copy of revealed, one position of the signature at a time. */
  method RevealSlots(revealed: string, letter: char, sig: Signature) returns (r: string)
    requires forall i :: i in sig ==> i < |revealed|
    ensures r == Reveal(revealed, letter, sig)
  {
    r := revealed;
    for k := 0 to |sig|
      invariant |r| == |revealed|
      invariant forall i :: 0 <= i < |r| ==> r[i] == if i in sig[..k] then letter else revealed[i]
    {
      assert sig[..k + 1] == sig[..k] + [sig[k]] && sig[k] in sig;
      r := r[sig[k] := letter];
    }
    assert sig[..|sig|] == sig;
  }

  function Letters(word: string): set<char> { set i | 0 <= i < |word| :: word[i] }

  /** The letters occurring in some remaining word. */
  function Present(words: set<string>): set<char> {
    set w, c | w in words && c in Letters(w) :: c
  }

  /** Letters of some remaining word that the pattern does not show. */
  function Candidates(words: set<string>, revealed: string): set<char> {
    Present(words) - set c | c in Letters(revealed) && c != '_'
  }

  // --- the state space --------------------------------------------------------------------

  /** Words and pattern of one length, no word using the hidden-slot character. */
  ghost predicate Puzzle(words: set<string>, revealed: string) {
    forall w :: w in words ==> |w| == |revealed| && '_' !in w
  }

  /** Slots on which some word disagrees with the pattern. */
  ghost function Unsettled(words: set<string>, revealed: string): set<nat> {
    set i | 0 <= i < |revealed| && exists w :: w in words && (i < |w| ==> w[i] != revealed[i])
  }

  /** The state after letter is announced at sig. */
  function After(words: set<string>, revealed: string, letter: char, sig: Signature): (set<string>, string) {
    (Group(words, letter, sig), if sig == [] then revealed else Reveal(revealed, letter, sig))
  }

  lemma PresentIs(words: set<string>, c: char)
    ensures c in Present(words) <==> exists w :: w in words && c in w
  {
    forall w | w in words && c in w ensures c in Letters(w) {
      var i :| 0 <= i < |w| && w[i] == c;
    }
  }

  /** Worth guessing: in some remaining word and not shown. */
  ghost predicate Guessable(words: set<string>, revealed: string, c: char) {
    (exists w :: w in words && c in w) && c !in revealed
  }

  /** The candidate letters are exactly those, wherever in the words they stand. */
  lemma CandidatesAre(words: set<string>, revealed: string, c: char)
    requires Puzzle(words, revealed)
    ensures c in Candidates(words, revealed) <==> Guessable(words, revealed, c)
  {
    PresentIs(words, c);
    LettersAre(revealed, c);
  }

  lemma LettersAre(word: string, c: char)
    ensures c in Letters(word) <==> c in word
  {
    if c in word {
      var i :| 0 <= i < |word| && word[i] == c;
    }
  }

  /** A wrong guess removes its letter from the words that remain. */
  lemma MissShrinks(words: set<string>, letter: char)
    requires letter in Present(words)
    ensures Present(Group(words, letter, [])) < Present(words)
  {
    var group := Group(words, letter, []);
    forall c | c in Present(group) ensures c in Present(words) && c != letter {
      PresentIs(group, c);
      PresentIs(words, c);
      var w :| w in group && c in w;
      var i :| 0 <= i < |w| && w[i] == c;
      assert i !in Sig(w, letter);
    }
  }

  /** A right guess settles slots for good: every slot it shows agrees with all words left. */
  lemma HitSettles(words: set<string>, revealed: string, letter: char, sig: Signature)
    requires Puzzle(words, revealed) && letter in Candidates(words, revealed)
    requires sig in Sigs(words, letter) && sig != []
    ensures Unsettled(Group(words, letter, sig), Reveal(revealed, letter, sig)) < Unsettled(words, revealed)
  {
    var group, revealed' := Group(words, letter, sig), Reveal(revealed, letter, sig);
    var word :| word in words && Sig(word, letter) == sig;
    var k := sig[0];
    assert k in sig;
    HiddenLetter(words, revealed, letter);
    assert word[k] == letter && revealed[k] in Letters(revealed) && letter !in Letters(revealed);
    assert k in Unsettled(words, revealed);
    forall w | w in group ensures w[k] == letter {
      assert k in Sig(w, letter);
    }
    assert k !in Unsettled(group, revealed');
    forall w, i | w in group && i in sig ensures w[i] == letter {
      assert i in Sig(w, letter);
    }
    forall i | i in Unsettled(group, revealed') ensures i in Unsettled(words, revealed) {
      var w :| w in group && w[i] != revealed'[i];
    }
  }

  lemma HiddenLetter(words: set<string>, revealed: string, letter: char)
    requires Puzzle(words, revealed) && letter in Candidates(words, revealed)
    ensures letter != '_' && letter !in Letters(revealed)
  {
    PresentIs(words, letter);
  }

  /** Every announcement leaves fewer unsettled slots, or as many and fewer letters present. */
  lemma Progress(words: set<string>, revealed: string, letter: char, sig: Signature)
    requires Puzzle(words, revealed) && letter in Candidates(words, revealed)
    ensures var (words', revealed') := After(words, revealed, letter, sig);
      && (sig in Sigs(words, letter) ==> words' != {})
      && Puzzle(words', revealed')
      && (Unsettled(words', revealed') < Unsettled(words, revealed)
          || (Unsettled(words', revealed') == Unsettled(words, revealed) && Present(words') < Present(words)))
  {
    if sig in Sigs(words, letter) {
      var word :| word in words && Sig(word, letter) == sig;
      assert word in Group(words, letter, sig);
    } else {
      assert Group(words, letter, sig) == {};
      assert Present({}) == {};
    }
    if sig == [] {
      MissShrinks(words, letter);
    } else if sig in Sigs(words, letter) {
      HitSettles(words, revealed, letter, sig);
    }
  }

  // --- the solver -------------------------------------------------------------------------

  ghost function MinOf(s: set<nat>): (m: nat)
    requires s != {}
    ensures m in s && forall x :: x in s ==> m <= x
  {
    var x :| x in s;
    if s == {x} then x else
      var m := MinOf(s - {x});
      assert forall y :: y in s ==> y == x || y in s - {x};
      if x < m then x else m
  }

  ghost function MaxOf(s: set<nat>): (m: nat)
    requires s != {}
    ensures m in s && forall x :: x in s ==> x <= m
  {
    var x :| x in s;
    if s == {x} then x else
      var m := MaxOf(s - {x});
      assert forall y :: y in s ==> y == x || y in s - {x};
      if x > m then x else m
  }

  /** Wrong guesses still needed when both sides play perfectly. It is defined, and so the
      recursion ends, on every pattern, whether or not the pattern agrees with the words. */
  ghost function Solve(words: set<string>, revealed: string): nat
    requires Puzzle(words, revealed)
    decreases Unsettled(words, revealed), Present(words), 2
  {
    if |words| <= 1 || Candidates(words, revealed) == {} then 0
    else MinOf(Worsts(words, revealed))
  }

  ghost function Worsts(words: set<string>, revealed: string): (s: set<nat>)
    requires Puzzle(words, revealed)
    ensures Candidates(words, revealed) != {} ==> s != {}
    decreases Unsettled(words, revealed), Present(words), 1, 1
  {
    var s := set letter | letter in Candidates(words, revealed) :: Worst(words, revealed, letter);
    assert forall letter :: letter in Candidates(words, revealed) ==> Worst(words, revealed, letter) in s;
    s
  }

  /** The chooser's best reply to letter. */
  ghost function Worst(words: set<string>, revealed: string, letter: char): nat
    requires Puzzle(words, revealed) && letter in Candidates(words, revealed)
    decreases Unsettled(words, revealed), Present(words), 1, 0
  {
    MaxOf(Costs(words, revealed, letter))
  }

  ghost function Costs(words: set<string>, revealed: string, letter: char): (s: set<nat>)
    requires Puzzle(words, revealed) && letter in Candidates(words, revealed)
    ensures s != {}
    decreases Unsettled(words, revealed), Present(words), 0, 1
  {
    var s := set sig | sig in Sigs(words, letter) :: Cost(words, revealed, letter, sig);
    var word :| word in words;
    assert Sig(word, letter) in Sigs(words, letter);
    assert Cost(words, revealed, letter, Sig(word, letter)) in s;
    s
  }

  /** What announcing sig costs the guesser from here on. */
  ghost function Cost(words: set<string>, revealed: string, letter: char, sig: Signature): nat
    requires Puzzle(words, revealed) && letter in Candidates(words, revealed)
    decreases Unsettled(words, revealed), Present(words), 0, 0
  {
    Progress(words, revealed, letter, sig);
    var (words', revealed') := After(words, revealed, letter, sig);
    (if sig == [] then 1 else 0) + Solve(words', revealed')
  }

  lemma WorstAtLeastCost(words: set<string>, revealed: string, letter: char, sig: Signature)
    requires Puzzle(words, revealed) && letter in Candidates(words, revealed) && sig in Sigs(words, letter)
    ensures Cost(words, revealed, letter, sig) <= Worst(words, revealed, letter)
  {
    assert Cost(words, revealed, letter, sig) in Costs(words, revealed, letter);
  }

  lemma WorstIsSomeCost(words: set<string>, revealed: string, letter: char) returns (sig: Signature)
    requires Puzzle(words, revealed) && letter in Candidates(words, revealed)
    ensures sig in Sigs(words, letter) && Cost(words, revealed, letter, sig) == Worst(words, revealed, letter)
  {
    assert Worst(words, revealed, letter) in Costs(words, revealed, letter);
    sig :| sig in Sigs(words, letter) && Cost(words, revealed, letter, sig) == Worst(words, revealed, letter);
  }

  // --- guessing strategies ----------------------------------------------------------------

  type Strategy = (set<string>, string) -> Option<char>

  /** letter has the least score, alphabetically first among equals. */
  ghost predicate Least(letters: set<char>, score: char -> nat, letter: char) {
    letter in letters &&
    forall c :: c in letters ==> score(letter) < score(c) || (score(letter) == score(c) && letter <= c)
  }

  ghost function ArgMin(letters: set<char>, score: char -> nat): (letter: char)
    requires letters != {}
    ensures Least(letters, score, letter)
  {
    var c :| c in letters;
    if letters == {c} then c else
      var d := ArgMin(letters - {c}, score);
      assert forall y :: y in letters ==> y == c || y in letters - {c};
      if score(c) < score(d) || (score(c) == score(d) && c <= d) then c else d
  }

  ghost function WorstScore(words: set<string>, revealed: string): char -> nat
    requires Puzzle(words, revealed)
  {
    letter => if letter in Candidates(words, revealed) then Worst(words, revealed, letter) else 0
  }

  ghost function Sizes(words: set<string>, letter: char): (sizes: set<nat>)
    ensures words != {} ==> sizes != {}
  {
    assert words != {} ==> exists word :: word in words && Sig(word, letter) in Sigs(words, letter);
    var sizes := set sig | sig in Sigs(words, letter) :: |Group(words, letter, sig)|;
    assert forall sig :: sig in Sigs(words, letter) ==> |Group(words, letter, sig)| in sizes;
    sizes
  }

  /** The largest set of words that could survive guessing letter. */
  ghost function LargestPartition(words: set<string>, letter: char): nat {
    if words == {} then 0 else MaxOf(Sizes(words, letter))
  }

  ghost function Choose(words: set<string>, revealed: string, score: char -> nat): Option<char> {
    if |words| <= 1 || Candidates(words, revealed) == {} then None
    else Some(ArgMin(Candidates(words, revealed), score))
  }

  /** best_guess of the exact solvers, and of the greedy one. */
  ghost function BestGuess(words: set<string>, revealed: string): Option<char> {
    if Puzzle(words, revealed) then Choose(words, revealed, WorstScore(words, revealed)) else None
  }

  ghost function GreedyGuess(words: set<string>, revealed: string): Option<char> {
    Choose(words, revealed, letter => LargestPartition(words, letter))
  }

  /** The most words that any answer to the guess leaves. */
  ghost predicate LargestLeft(words: set<string>, letter: char, n: nat) {
    (exists sig :: |Group(words, letter, sig)| == n) && forall sig :: |Group(words, letter, sig)| <= n
  }

  lemma LargestPartitionIs(words: set<string>, letter: char)
    requires words != {}
    ensures LargestLeft(words, letter, LargestPartition(words, letter))
  {
    forall sig ensures |Group(words, letter, sig)| <= LargestPartition(words, letter) {
      if sig in Sigs(words, letter) {
        assert |Group(words, letter, sig)| in Sizes(words, letter);
      } else {
        assert Group(words, letter, sig) == {};
      }
    }
  }

  lemma LargestIsOne(words: set<string>, letter: char, m: nat, n: nat)
    requires LargestLeft(words, letter, m) && LargestLeft(words, letter, n)
    ensures m == n
  {
  }

  /** The greedy guesser names the hidden letter whose largest group is smallest, the first in the alphabet among
      equals, and nothing only when the words are down to one or no letter is left to guess. */
  lemma GreedyLeavesLeast(words: set<string>, revealed: string)
    requires Puzzle(words, revealed)
    ensures GreedyGuess(words, revealed).None? <==> |words| <= 1 || forall c :: !Guessable(words, revealed, c)
    ensures GreedyGuess(words, revealed).Some? ==>
      var letter := GreedyGuess(words, revealed).value;
      Guessable(words, revealed, letter) &&
      forall c, m, n :: Guessable(words, revealed, c) && LargestLeft(words, letter, m) && LargestLeft(words, c, n) ==>
        m < n || (m == n && letter <= c)
  {
    forall c ensures c in Candidates(words, revealed) <==> Guessable(words, revealed, c) {
      CandidatesAre(words, revealed, c);
    }
    if GreedyGuess(words, revealed).Some? {
      var letter := GreedyGuess(words, revealed).value;
      forall c, m, n | Guessable(words, revealed, c) && LargestLeft(words, letter, m) && LargestLeft(words, c, n)
        ensures m < n || (m == n && letter <= c)
      {
        LargestPartitionIs(words, letter);
        LargestPartitionIs(words, c);
        LargestIsOne(words, letter, m, LargestPartition(words, letter));
        LargestIsOne(words, c, n, LargestPartition(words, c));
      }
    }
  }

  /** The exact guesser likewise, by the chooser's best reply. */
  lemma BestGuessCostsLeast(words: set<string>, revealed: string)
    requires Puzzle(words, revealed)
    ensures BestGuess(words, revealed).None? <==> |words| <= 1 || forall c :: !Guessable(words, revealed, c)
    ensures BestGuess(words, revealed).Some? ==>
      var letter := BestGuess(words, revealed).value;
      letter in Candidates(words, revealed) &&
      forall c :: c in Candidates(words, revealed) ==>
        Worst(words, revealed, letter) < Worst(words, revealed, c) ||
        (Worst(words, revealed, letter) == Worst(words, revealed, c) && letter <= c)
  {
    forall c ensures c in Candidates(words, revealed) <==> Guessable(words, revealed, c) {
      CandidatesAre(words, revealed, c);
    }
    if BestGuess(words, revealed).Some? {
      var letter := BestGuess(words, revealed).value;
      var score := WorstScore(words, revealed);
      forall c | c in Candidates(words, revealed)
        ensures score(letter) < score(c) || (score(letter) == score(c) && letter <= c)
      {
      }
    }
  }

  /** The largest group, over the groups of the partition. */
  method LargestGroup(words: set<string>, letter: char) returns (n: nat)
    requires words != {}
    ensures LargestLeft(words, letter, n)
  {
    var groups := Partition(words, letter);
    n := 0;
    var rest := groups.Keys;
    while rest != {}
      invariant rest <= groups.Keys
      invariant n == 0 || exists sig :: |Group(words, letter, sig)| == n
      invariant forall sig :: sig in groups.Keys - rest ==> |Group(words, letter, sig)| <= n
      decreases rest
    {
      var sig :| sig in rest;
      n := if |groups[sig]| > n then |groups[sig]| else n;
      rest := rest - {sig};
    }
    LargestPartitionIs(words, letter);
    forall sig ensures |Group(words, letter, sig)| <= n {
      if sig !in groups {
        assert Group(words, letter, sig) == {};
      }
    }
    if n == 0 {
      var word :| word in words;
      assert word in Group(words, letter, Sig(word, letter));
    }
  }

  /** best_guess of the greedy guesser. */
  method GreedyLetter(words: set<string>, revealed: string) returns (guess: Option<char>)
    ensures guess == GreedyGuess(words, revealed)
  {
    var letters := Candidates(words, revealed);
    if |words| <= 1 || letters == {} {
      return None;
    }
    var rest := letters;
    var least := 0;
    guess := None;
    ghost var score: char -> nat := letter => LargestPartition(words, letter);
    while rest != {}
      invariant rest <= letters
      invariant guess.None? ==> rest == letters
      invariant guess.Some? ==>
        guess.value in letters && least == score(guess.value) && Least(letters - rest, score, guess.value)
      decreases rest
    {
      var letter :| letter in rest;
      var largest := LargestGroup(words, letter);
      LargestPartitionIs(words, letter);
      LargestIsOne(words, letter, largest, score(letter));
      if guess.None? || largest < least || (largest == least && letter < guess.value) {
        guess, least := Some(letter), largest;
      }
      rest := rest - {letter};
    }
    assert letters - rest == letters;
  }

  /** The strategy names a hidden letter of some word left, any it likes, and gives up only when there is none. */
  ghost predicate Proper(st: Strategy) {
    forall words: set<string>, revealed: string | Puzzle(words, revealed) && |words| > 1 ::
      match st(words, revealed)
      case None => forall c :: !Guessable(words, revealed, c)
      case Some(letter) => Guessable(words, revealed, letter)
  }

  lemma ProperGuess(st: Strategy, words: set<string>, revealed: string)
    requires Proper(st) && Puzzle(words, revealed) && |words| > 1
    ensures match st(words, revealed)
      case None => Candidates(words, revealed) == {}
      case Some(letter) => letter in Candidates(words, revealed)
  {
    match st(words, revealed)
    case None =>
      forall c ensures c !in Candidates(words, revealed) { CandidatesAre(words, revealed, c); }
    case Some(letter) => CandidatesAre(words, revealed, letter);
  }

  lemma CandidatesAreProper(st: Strategy)
    requires forall words: set<string>, revealed: string | Puzzle(words, revealed) && |words| > 1 ::
      match st(words, revealed)
      case None => Candidates(words, revealed) == {}
      case Some(letter) => letter in Candidates(words, revealed)
    ensures Proper(st)
  {
    forall words: set<string>, revealed: string | Puzzle(words, revealed) && |words| > 1
      ensures st(words, revealed).None? ==> forall c :: !Guessable(words, revealed, c)
      ensures st(words, revealed).Some? ==> Guessable(words, revealed, st(words, revealed).value)
    {
      forall c ensures c in Candidates(words, revealed) <==> Guessable(words, revealed, c) {
        CandidatesAre(words, revealed, c);
      }
    }
  }

  ghost predicate Optimal(st: Strategy) {
    Proper(st) &&
    forall words: set<string>, revealed: string | Puzzle(words, revealed) && |words| > 1 ::
      match st(words, revealed)
      case None => true
      case Some(letter) =>
        letter in Candidates(words, revealed) && Worst(words, revealed, letter) == Solve(words, revealed)
  }

  lemma BestGuessIsOptimal()
    ensures Optimal(BestGuess)
  {
    CandidatesAreProper(BestGuess);
    forall words: set<string>, revealed: string |
        Puzzle(words, revealed) && |words| > 1 && Candidates(words, revealed) != {}
      ensures Worst(words, revealed, BestGuess(words, revealed).value) == Solve(words, revealed)
    {
      var letter := BestGuess(words, revealed).value;
      assert Worst(words, revealed, letter) in Worsts(words, revealed);
      forall x | x in Worsts(words, revealed) ensures Worst(words, revealed, letter) <= x {
        var c :| c in Candidates(words, revealed) && x == Worst(words, revealed, c);
        assert WorstScore(words, revealed)(letter) <= WorstScore(words, revealed)(c);
      }
    }
  }

  lemma GreedyIsProper()
    ensures Proper(GreedyGuess)
  {
    CandidatesAreProper(GreedyGuess);
  }

  // --- the played game --------------------------------------------------------------------

  /** Wrong guesses made from a state on, against a fixed secret. */
  ghost function Play(st: Strategy, words: set<string>, revealed: string, secret: string): nat
    requires Proper(st) && Puzzle(words, revealed)
    decreases Unsettled(words, revealed), Present(words)
  {
    if |words| <= 1 || st(words, revealed).None? then 0 else
      ProperGuess(st, words, revealed);
      var letter := st(words, revealed).value;
      var sig := Sig(secret, letter);
      Progress(words, revealed, letter, sig);
      var (words', revealed') := After(words, revealed, letter, sig);
      (if sig == [] then 1 else 0) + Play(st, words', revealed', secret)
  }

  /** The letters named from a state on, against a fixed secret. */
  ghost function Guesses(st: Strategy, words: set<string>, revealed: string, secret: string): seq<char>
    requires Proper(st) && Puzzle(words, revealed)
    decreases Unsettled(words, revealed), Present(words)
  {
    if |words| <= 1 || st(words, revealed).None? then [] else
      ProperGuess(st, words, revealed);
      var letter := st(words, revealed).value;
      Progress(words, revealed, letter, Sig(secret, letter));
      var (words', revealed') := After(words, revealed, letter, Sig(secret, letter));
      [letter] + Guesses(st, words', revealed', secret)
  }

  /** How many of the letters the secret lacks. */
  function Missed(letters: seq<char>, secret: string): nat {
    if letters == [] then 0 else One(letters[0] !in secret) + Missed(letters[1..], secret)
  }

  /** What is counted are the guesses of letters that the secret does not have. */
  lemma {:induction false} PlayCountsMisses(st: Strategy, words: set<string>, revealed: string, secret: string)
    requires Proper(st) && Puzzle(words, revealed)
    ensures Play(st, words, revealed, secret) == Missed(Guesses(st, words, revealed, secret), secret)
    decreases Unsettled(words, revealed), Present(words)
  {
    if |words| > 1 && st(words, revealed).Some? {
      ProperGuess(st, words, revealed);
      var letter := st(words, revealed).value;
      Progress(words, revealed, letter, Sig(secret, letter));
      NoSlotIfMissing(secret, letter);
      var (words', revealed') := After(words, revealed, letter, Sig(secret, letter));
      PlayCountsMisses(st, words', revealed', secret);
      assert ([letter] + Guesses(st, words', revealed', secret))[1..] == Guesses(st, words', revealed', secret);
    }
  }

  lemma NoSlotIfMissing(word: string, letter: char)
    ensures letter !in word <==> Sig(word, letter) == []
  {
    if letter in word {
      var i :| 0 <= i < |word| && word[i] == letter;
      assert i in Sig(word, letter);
    }
    assert Sig(word, letter) != [] ==> Sig(word, letter)[0] in Sig(word, letter);
  }

  /** No secret costs the optimal guesser more than the solver's value. */
  lemma {:induction false} OptimalAtMost(st: Strategy, words: set<string>, revealed: string, secret: string)
    requires Optimal(st) && Puzzle(words, revealed) && secret in words
    ensures Play(st, words, revealed, secret) <= Solve(words, revealed)
    decreases Unsettled(words, revealed), Present(words)
  {
    if |words| > 1 && st(words, revealed).Some? {
      ProperGuess(st, words, revealed);
      var letter := st(words, revealed).value;
      var sig := Sig(secret, letter);
      Progress(words, revealed, letter, sig);
      var (words', revealed') := After(words, revealed, letter, sig);
      OptimalAtMost(st, words', revealed', secret);
      assert sig in Sigs(words, letter);
      WorstAtLeastCost(words, revealed, letter, sig);
    }
  }

  /** Against any strategy naming candidate letters, some secret costs the solver's value or more. */
  lemma {:induction false} SomeSecretAtLeast(st: Strategy, words: set<string>, revealed: string)
      returns (secret: string)
    requires Proper(st) && Puzzle(words, revealed) && words != {}
    ensures secret in words && Play(st, words, revealed, secret) >= Solve(words, revealed)
    decreases Unsettled(words, revealed), Present(words)
  {
    if |words| <= 1 || st(words, revealed).None? {
      secret :| secret in words;
      if |words| > 1 { ProperGuess(st, words, revealed); }
    } else {
      ProperGuess(st, words, revealed);
      var letter := st(words, revealed).value;
      assert Worst(words, revealed, letter) in Worsts(words, revealed);
      var sig := WorstIsSomeCost(words, revealed, letter);
      Progress(words, revealed, letter, sig);
      var (words', revealed') := After(words, revealed, letter, sig);
      secret := SomeSecretAtLeast(st, words', revealed');
      assert Sig(secret, letter) == sig;
    }
  }

  ghost function Plays(st: Strategy, words: set<string>, revealed: string): set<nat>
    requires Proper(st) && Puzzle(words, revealed)
  {
    set secret | secret in words :: Play(st, words, revealed, secret)
  }

  /** The worst played outcome over all secrets. */
  ghost function WorstPlay(st: Strategy, words: set<string>, revealed: string): nat
    requires Proper(st) && Puzzle(words, revealed) && words != {}
  {
    var secret :| secret in words;
    assert Play(st, words, revealed, secret) in Plays(st, words, revealed);
    MaxOf(Plays(st, words, revealed))
  }

  lemma WorstPlayBounds(st: Strategy, words: set<string>, revealed: string, secret: string)
    requires Proper(st) && Puzzle(words, revealed) && secret in words
    ensures Play(st, words, revealed, secret) <= WorstPlay(st, words, revealed)
    ensures exists worst :: worst in words && Play(st, words, revealed, worst) == WorstPlay(st, words, revealed)
  {
    assert Play(st, words, revealed, secret) in Plays(st, words, revealed);
  }

  /** The solver and the simulator agree: exactly for optimal play, as a lower bound for any other. */
  lemma SolverMatchesPlay(st: Strategy, words: set<string>, revealed: string)
    requires Proper(st) && Puzzle(words, revealed) && words != {}
    ensures WorstPlay(st, words, revealed) >= Solve(words, revealed)
    ensures Optimal(st) ==> WorstPlay(st, words, revealed) == Solve(words, revealed)
  {
    var hard := SomeSecretAtLeast(st, words, revealed);
    WorstPlayBounds(st, words, revealed, hard);
    if Optimal(st) {
      var worst :| worst in words && Play(st, words, revealed, worst) == WorstPlay(st, words, revealed);
      OptimalAtMost(st, words, revealed, worst);
    }
  }

  // --- from the all-hidden pattern --------------------------------------------------------

  function Hidden(n: nat): string { seq(n, _ => '_') }

  /** Shown slots match every word, and a shown letter is shown wherever a word has it. */
  ghost predicate Consistent(words: set<string>, revealed: string) {
    Puzzle(words, revealed) &&
    forall w, i :: w in words && 0 <= i < |revealed| ==>
      (revealed[i] != '_' ==> w[i] == revealed[i]) && (w[i] in revealed ==> revealed[i] == w[i])
  }

  lemma HiddenConsistent(words: set<string>, n: nat)
    requires Puzzle(words, Hidden(n))
    ensures Consistent(words, Hidden(n))
  {
    forall w, i | w in words && 0 <= i < n ensures w[i] !in Hidden(n) {
      assert w[i] in w;
    }
  }

  /** The guess is hidden in the pattern, so showing it overwrites no shown letter. */
  lemma ConsistentAfter(words: set<string>, revealed: string, letter: char, sig: Signature)
    requires Consistent(words, revealed) && letter in Candidates(words, revealed)
    ensures var (words', revealed') := After(words, revealed, letter, sig); Consistent(words', revealed')
  {
    var (words', revealed') := After(words, revealed, letter, sig);
    HiddenLetter(words, revealed, letter);
    forall w, i | w in words' && 0 <= i < |revealed|
      ensures i in sig <==> w[i] == letter
      ensures (revealed'[i] != '_' ==> w[i] == revealed'[i]) && (w[i] in revealed' ==> revealed'[i] == w[i])
    {
      assert i in Sig(w, letter) <==> i in sig;
      assert revealed[i] in Letters(revealed);
      if w[i] in revealed' && w[i] != letter {
        var j :| 0 <= j < |revealed'| && revealed'[j] == w[i];
        assert revealed[j] == w[i];
      }
    }
  }

  /** Two candidates differ in a hidden slot, and what either has there is not shown anywhere. */
  lemma AlwaysALetter(words: set<string>, revealed: string)
    requires Consistent(words, revealed) && |words| > 1
    ensures Candidates(words, revealed) != {}
  {
    var v :| v in words;
    assert words != {v};
    var w :| w in words && w != v;
    var i :| 0 <= i < |revealed| && v[i] != w[i];
    assert v[i] in v && w[i] in w;
    PresentIs(words, v[i]);
    PresentIs(words, w[i]);
    assert revealed[i] == '_';
    assert v[i] !in revealed;
    forall c | c in Letters(revealed) ensures c in revealed {
      var k :| 0 <= k < |revealed| && revealed[k] == c;
    }
    assert v[i] in Candidates(words, revealed);
  }

  /** On consistent states the letters worth guessing strictly shrink with every announcement. */
  lemma CandidatesShrink(words: set<string>, revealed: string, letter: char, sig: Signature)
    requires Consistent(words, revealed) && letter in Candidates(words, revealed) && sig in Sigs(words, letter)
    ensures var (words', revealed') := After(words, revealed, letter, sig);
      Candidates(words', revealed') < Candidates(words, revealed)
  {
    var (words', revealed') := After(words, revealed, letter, sig);
    HiddenLetter(words, revealed, letter);
    forall c | c in Candidates(words', revealed') ensures c in Candidates(words, revealed) && c != letter {
      PresentIs(words', c);
      PresentIs(words, c);
      if sig == [] {
        MissShrinks(words, letter);
        var w :| w in words' && c in w;
        var i :| 0 <= i < |w| && w[i] == c;
        assert i !in Sig(w, letter);
      } else {
        assert sig[0] in sig;
        assert revealed'[sig[0]] in Letters(revealed');
        forall i | 0 <= i < |revealed| && revealed[i] != '_' ensures revealed[i] in Letters(revealed') {
          KeepsShown(words, revealed, letter, sig, i);
          assert revealed'[i] in Letters(revealed');
        }
      }
    }
  }

  lemma KeepsShown(words: set<string>, revealed: string, letter: char, sig: Signature, i: nat)
    requires Consistent(words, revealed) && letter in Candidates(words, revealed) && sig in Sigs(words, letter)
    requires i < |revealed| && revealed[i] != '_'
    ensures i !in sig
  {
    var w :| w in words && Sig(w, letter) == sig;
    HiddenLetter(words, revealed, letter);
    assert revealed[i] in Letters(revealed);
    assert w[i] == revealed[i];
  }

  /** The words left when the simulator stops. */
  ghost function Remaining(st: Strategy, words: set<string>, revealed: string, secret: string): set<string>
    requires Proper(st) && Puzzle(words, revealed)
    decreases Unsettled(words, revealed), Present(words)
  {
    if |words| <= 1 || st(words, revealed).None? then words else
      ProperGuess(st, words, revealed);
      var letter := st(words, revealed).value;
      Progress(words, revealed, letter, Sig(secret, letter));
      var (words', revealed') := After(words, revealed, letter, Sig(secret, letter));
      Remaining(st, words', revealed', secret)
  }

  lemma {:induction false} SecretIsFound(st: Strategy, words: set<string>, revealed: string, secret: string)
    requires Proper(st) && Consistent(words, revealed) && secret in words
    ensures Remaining(st, words, revealed, secret) == {secret}
    decreases Unsettled(words, revealed), Present(words)
  {
    if |words| <= 1 {
      assert |words - {secret}| == 0;
      assert words == {secret};
    } else {
      AlwaysALetter(words, revealed);
      ProperGuess(st, words, revealed);
      var letter := st(words, revealed).value;
      Progress(words, revealed, letter, Sig(secret, letter));
      ConsistentAfter(words, revealed, letter, Sig(secret, letter));
      var (words', revealed') := After(words, revealed, letter, Sig(secret, letter));
      SecretIsFound(st, words', revealed', secret);
    }
  }

  /** min_wrong_guesses of a dictionary of equal-length words. */
  ghost function MinWrongGuesses(words: set<string>, n: nat): nat
    requires Puzzle(words, Hidden(n))
  {
    Solve(words, Hidden(n))
  }

  /** The promise of the package: over all secrets the optimal game costs exactly
      min_wrong_guesses, the greedy one no less, and both end with the secret known. */
  lemma OptimalGame(words: set<string>, n: nat)
    requires Puzzle(words, Hidden(n)) && words != {}
    ensures Proper(BestGuess) && Proper(GreedyGuess)
    ensures WorstPlay(BestGuess, words, Hidden(n)) == MinWrongGuesses(words, n)
    ensures WorstPlay(GreedyGuess, words, Hidden(n)) >= MinWrongGuesses(words, n)
    ensures forall secret :: secret in words ==>
      Remaining(BestGuess, words, Hidden(n), secret) == Remaining(GreedyGuess, words, Hidden(n), secret) == {secret}
  {
    BestGuessIsOptimal();
    GreedyIsProper();
    SolverMatchesPlay(BestGuess, words, Hidden(n));
    SolverMatchesPlay(GreedyGuess, words, Hidden(n));
    HiddenConsistent(words, n);
    forall secret | secret in words
      ensures Remaining(BestGuess, words, Hidden(n), secret) == {secret}
      ensures Remaining(GreedyGuess, words, Hidden(n), secret) == {secret}
    {
      SecretIsFound(BestGuess, words, Hidden(n), secret);
      SecretIsFound(GreedyGuess, words, Hidden(n), secret);
    }
  }

  /** play_game: the simulator's loop. */
  method PlayGame(st: Strategy, words: set<string>, secret: string) returns (wrong: nat)
    requires Proper(st) && Puzzle(words, Hidden(|secret|))
    ensures wrong == Play(st, words, Hidden(|secret|), secret)
  {
    var candidates, revealed := words, Hidden(|secret|);
    wrong := 0;
    while |candidates| > 1
      invariant Puzzle(candidates, revealed) && |revealed| == |secret|
      invariant wrong + Play(st, candidates, revealed, secret) == Play(st, words, Hidden(|secret|), secret)
      decreases Unsettled(candidates, revealed), Present(candidates)
    {
      var letter := st(candidates, revealed);
      ProperGuess(st, candidates, revealed);
      if letter == None { break; }
      var sig := Sig(secret, letter.value);
      Progress(candidates, revealed, letter.value, sig);
      if sig == [] {
        wrong := wrong + 1;
        MissKeeps(candidates, letter.value);
        candidates := set w | w in candidates && letter.value !in w;
      } else {
        revealed := RevealSlots(revealed, letter.value, sig);
        candidates := set w | w in candidates && Sig(w, letter.value) == sig;
      }
    }
  }

  lemma MissKeeps(words: set<string>, letter: char)
    ensures (set w | w in words && letter !in w) == Group(words, letter, [])
  {
    forall w | w in words ensures letter !in w <==> Sig(w, letter) == [] {
      NoSlotIfMissing(w, letter);
    }
  }

  // --- the memoized solver ----------------------------------------------------------------

  class MemoizedHangman {
    var memo: map<(set<string>, string), nat>

    /** Every cached value, whatever calls filled the table, is the plain minimax value. */
    ghost predicate Valid()
      reads this
    {
      forall words, revealed :: (words, revealed) in memo ==>
        Puzzle(words, revealed) && memo[(words, revealed)] == Solve(words, revealed)
    }

    constructor ()
      ensures Valid() && memo == map[]
    {
      memo := map[];
    }

    method SolveMemo(words: set<string>, revealed: string) returns (value: nat)
      requires Valid() && Puzzle(words, revealed)
      modifies this
      ensures Valid() && value == Solve(words, revealed)
      ensures forall key :: key in old(memo) ==> key in memo && memo[key] == old(memo)[key]
      decreases Unsettled(words, revealed), Present(words), 1
    {
      if (words, revealed) in memo {
        return memo[(words, revealed)];
      }
      var letters := Candidates(words, revealed);
      if |words| <= 1 || letters == {} {
        value := 0;
      } else {
        var rest := letters;
        var best: Option<nat> := None;
        while rest != {}
          invariant rest <= letters && Valid()
          invariant best.None? ==> rest == letters
          invariant best.Some? ==>
            best.value in Worsts(words, revealed) &&
            forall c :: c in letters - rest ==> best.value <= Worst(words, revealed, c)
          invariant forall key :: key in old(memo) ==> key in memo && memo[key] == old(memo)[key]
          decreases rest
        {
          var letter :| letter in rest;
          var worst := WorstCase(words, revealed, letter);
          assert Worst(words, revealed, letter) in Worsts(words, revealed);
          best := if best.None? || worst < best.value then Some(worst) else best;
          rest := rest - {letter};
        }
        value := best.value;
      }
      memo := memo[(words, revealed) := value];
    }

    method WorstCase(words: set<string>, revealed: string, letter: char) returns (worst: nat)
      requires Valid() && Puzzle(words, revealed) && letter in Candidates(words, revealed)
      modifies this
      ensures Valid() && worst == Worst(words, revealed, letter)
      ensures forall key :: key in old(memo) ==> key in memo && memo[key] == old(memo)[key]
      decreases Unsettled(words, revealed), Present(words), 0
    {
      var groups := Partition(words, letter);
      worst := 0;
      var rest := groups.Keys;
      while rest != {}
        invariant rest <= groups.Keys && Valid()
        invariant worst == 0 || worst in Costs(words, revealed, letter)
        invariant forall sig :: sig in groups.Keys - rest ==> Cost(words, revealed, letter, sig) <= worst
        invariant forall key :: key in old(memo) ==> key in memo && memo[key] == old(memo)[key]
        decreases rest
      {
        var sig :| sig in rest;
        Progress(words, revealed, letter, sig);
        var cost;
        if sig == [] {
          cost := SolveMemo(groups[sig], revealed);
          cost := 1 + cost;
        } else {
          SigInRange(words, revealed, letter, sig);
          var revealed' := RevealSlots(revealed, letter, sig);
          cost := SolveMemo(groups[sig], revealed');
        }
        assert cost == Cost(words, revealed, letter, sig);
        worst := if cost > worst then cost else worst;
        rest := rest - {sig};
      }
      forall x | x in Costs(words, revealed, letter) ensures x <= worst {
        var sig :| sig in Sigs(words, letter) && x == Cost(words, revealed, letter, sig);
        assert sig in groups.Keys - rest;
      }
    }

    method MinWrong(words: set<string>, ghost n: nat) returns (value: nat)
      requires Valid() && Puzzle(words, Hidden(n))
      modifies this
      ensures Valid() && value == MinWrongGuesses(words, n)
    {
      if words == {} {
        return 0;
      }
      var word :| word in words;
      value := SolveMemo(words, Hidden(|word|));
    }

    method BestLetter(words: set<string>, revealed: string) returns (guess: Option<char>)
      requires Valid() && Puzzle(words, revealed)
      modifies this
      ensures Valid() && guess == BestGuess(words, revealed)
    {
      var letters := Candidates(words, revealed);
      if |words| <= 1 || letters == {} {
        return None;
      }
      var rest := letters;
      var least := 0;
      guess := None;
      while rest != {}
        invariant rest <= letters && Valid()
        invariant guess.None? ==> rest == letters
        invariant guess.Some? ==> (guess.value in letters && least == Worst(words, revealed, guess.value) &&
          Least(letters - rest, WorstScore(words, revealed), guess.value))
        decreases rest
      {
        var letter :| letter in rest;
        var worst := WorstCase(words, revealed, letter);
        if guess.None? || worst < least || (worst == least && letter < guess.value) {
          guess, least := Some(letter), worst;
        }
        rest := rest - {letter};
      }
      assert letters - rest == letters;
    }
  }

  lemma SigInRange(words: set<string>, revealed: string, letter: char, sig: Signature)
    requires Puzzle(words, revealed) && sig in Sigs(words, letter)
    ensures forall i :: i in sig ==> i < |revealed|
  {
  }
}
