/**
 `generate_password`: rejection sampling of distinct characters.

 The random calls of loop iteration `i` are modelled by `next(i)`, an
 infinite stream of draws. With special characters one `randint(33, 126)`
 is made per iteration; without, three `randint` calls (digit, upper-case
 and lower-case code) and one `choice` among them.
 */
module Generator {
  import opened Alphabet

  type PrintableCode = x: int | 33 <= x <= 126 witness 33
  type DigitCode = x: int | 48 <= x <= 57 witness 48
  type UpperCode = x: int | 65 <= x <= 90 witness 65
  type LowerCode = x: int | 97 <= x <= 122 witness 97
  type Pick = x: int | 0 <= x < 3

  /** The values the random calls of one iteration return. */
  datatype Draw =
    | Printable(code: PrintableCode)
    | Mixed(digit: DigitCode, upper: UpperCode, lower: LowerCode, pick: Pick)

  /** Iteration `i` of the loop makes the random calls `next(i)` describes. */
  type DrawStream = nat -> Draw

  /** The character one iteration proposes. */
  function DrawChar(d: Draw): (c: char)
  {
    match d
    case Printable(code) => code as char
    case Mixed(digit, upper, lower, pick) => [digit, upper, lower][pick] as char
  }

  lemma DrawCharInAlphabet(d: Draw)
    ensures InAlphabet(DrawChar(d), d.Printable?)
  {
  }

  /** The characters the first `n` iterations propose. */
  function Drawn(next: DrawStream, n: nat): (r: string)
    ensures |r| == n
  {
    if n == 0 then [] else Drawn(next, n - 1) + [DrawChar(next(n - 1))]
  }

  /** The first occurrence of each character, in order: what the loop keeps. */
  function Dedup(s: string): string
  {
    if s == [] then []
    else
      var init, last := Dedup(s[..|s| - 1]), s[|s| - 1];
      if last in init then init else init + [last]
  }

  /** One more iteration keeps its character exactly when it is new. */
  lemma DedupStep(next: DrawStream, n: nat)
    ensures var kept, c := Dedup(Drawn(next, n)), DrawChar(next(n));
      Dedup(Drawn(next, n + 1)) == if c in kept then kept else kept + [c]
  {
    assert Drawn(next, n + 1)[..n] == Drawn(next, n);
  }

  /** Every character the first `n` iterations propose belongs to the mode's alphabet. */
  lemma {:induction false} DrawnInAlphabet(next: DrawStream, special: bool, n: nat)
    requires forall i: nat :: next(i).Printable? == special
    ensures forall c :: c in Drawn(next, n) ==> InAlphabet(c, special)
  {
    if n > 0 {
      DrawnInAlphabet(next, special, n - 1);
      DrawCharInAlphabet(next(n - 1));
    }
  }

  /** `Dedup` keeps only characters of its input. */
  lemma {:induction false} DedupKeepsFrom(s: string)
    ensures forall c :: c in Dedup(s) ==> c in s
  {
    if s != [] {
      DedupKeepsFrom(s[..|s| - 1]);
      assert forall c :: c in s[..|s| - 1] ==> c in s;
    }
  }

  /** `Dedup` never keeps a character twice. */
  lemma {:induction false} DedupDistinct(s: string)
    ensures Distinct(Dedup(s))
  {
    if s != [] {
      DedupDistinct(s[..|s| - 1]);
    }
  }

  /** What the first `n` iterations keep is a distinct string over the alphabet. */
  lemma KeptInAlphabet(next: DrawStream, special: bool, n: nat)
    requires forall i: nat :: next(i).Printable? == special
    ensures Distinct(Dedup(Drawn(next, n)))
    ensures forall c :: c in Dedup(Drawn(next, n)) ==> InAlphabet(c, special)
  {
    DrawnInAlphabet(next, special, n);
    DedupKeepsFrom(Drawn(next, n));
    DedupDistinct(Drawn(next, n));
  }

  /** After `n` iterations fewer than `length` characters have been kept. */
  predicate KeptFewer(next: DrawStream, n: nat, length: int)
  {
    |Dedup(Drawn(next, n))| < length
  }

  /** Running more iterations never shrinks what is kept. */
  lemma {:induction false} KeptGrows(next: DrawStream, m: nat, n: nat)
    requires m <= n
    ensures |Dedup(Drawn(next, m))| <= |Dedup(Drawn(next, n))|
    decreases n - m
  {
    if m < n {
      DedupStep(next, m);
      KeptGrows(next, m + 1, n);
    }
  }

  /**
   A run that stops right after the first iteration that completes the
   password ran no iteration that was not needed: every shorter run keeps
   fewer than `length` characters.
   */
  lemma StopsAtFirstCompletion(next: DrawStream, used: nat, length: int)
    requires used > 0 ==> KeptFewer(next, used - 1, length)
    ensures forall m :: 0 <= m < used ==> KeptFewer(next, m, length)
  {
    forall m | 0 <= m < used
      ensures KeptFewer(next, m, length)
    {
      KeptGrows(next, m, used - 1);
    }
  }

  /**
   With a `length` above the alphabet's size no number of iterations keeps
   enough characters, so the loop's condition never fails and the call does
   not return.
   */
  lemma NeverCompletes(next: DrawStream, special: bool, length: int, n: nat)
    requires forall i: nat :: next(i).Printable? == special
    requires length > AlphabetSize(special)
    ensures KeptFewer(next, n, length)
  {
    KeptInAlphabet(next, special, n);
    LengthBoundedByAlphabet(Dedup(Drawn(next, n)), special);
  }

  /** Some iteration at or after `i` proposes `c`. */
  ghost predicate AppearsFrom(next: DrawStream, c: char, i: nat)
  {
    exists j: nat :: j >= i && DrawChar(next(j)) == c
  }

  /**
   The stream matches the mode (one kind of draw throughout), and it is fair:
   every character of the alphabet keeps being proposed.
   */
  ghost predicate Oracle(next: DrawStream, special: bool)
  {
    && (forall i: nat :: next(i).Printable? == special)
    && (forall i: nat, c: char :: InAlphabet(c, special) ==> AppearsFrom(next, c, i))
  }

  /**
   Under a fair stream, while fewer characters than the alphabet holds have
   been kept, some iteration at or after `n` proposes a character not yet kept.
   */
  lemma FreshDrawAhead(next: DrawStream, special: bool, n: nat) returns (j: nat)
    requires Oracle(next, special)
    requires |Dedup(Drawn(next, n))| < AlphabetSize(special)
    ensures j >= n && DrawChar(next(j)) !in Dedup(Drawn(next, n))
  {
    KeptInAlphabet(next, special, n);
    var c := SomeCharacterUnused(Dedup(Drawn(next, n)), special);
    assert AppearsFrom(next, c, n);
    var k: nat :| k >= n && DrawChar(next(k)) == c;
    j := k;
  }

  /**
   The loop of `generate_password`. It terminates only because `length` does
   not exceed the alphabet's size (see `LengthBoundedByAlphabet`); `used` is
   the number of iterations it ran.
   */
  method GeneratePassword(length: int, special: bool, next: DrawStream) returns (password: string, ghost used: nat)
    requires Oracle(next, special)
    requires length <= AlphabetSize(special)
    ensures length <= 0 ==> password == ""
    ensures length > 0 ==> |password| == length
    ensures Distinct(password)
    ensures forall c :: c in password ==> InAlphabet(c, special)
    ensures password == Dedup(Drawn(next, used))
    ensures used > 0 ==> KeptFewer(next, used - 1, length)
  {
    password := "";
    var i: nat := 0;
    ghost var target: nat := 0;
    if 0 < length {
      target := FreshDrawAhead(next, special, 0);
    }
    while |password| < length
      invariant length <= 0 ==> password == ""
      invariant 0 < length ==> |password| <= length
      invariant password == Dedup(Drawn(next, i))
      invariant i > 0 ==> KeptFewer(next, i - 1, length)
      invariant |password| < length ==> i <= target && DrawChar(next(target)) !in password
      decreases length - |password|, target - i
    {
      var c := DrawChar(next(i));
      DedupStep(next, i);
      if c !in password {
        password := password + [c];
        i := i + 1;
        if |password| < length {
          target := FreshDrawAhead(next, special, i);
        }
      } else {
        assert target != i;
        i := i + 1;
      }
    }
    KeptInAlphabet(next, special, i);
    used := i;
  }
}
