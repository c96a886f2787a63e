/** `generateUniqueSlug` of auto-slug.helper.ts, from the base slug on: numbered candidates are tried in
    order until one is free. */
module AutoSlug {

  const DIGITS := "0123456789"

  /** A counter as a template literal prints it. */
  function Decimal(n: nat): (r: string)
    ensures r != "" && forall i :: 0 <= i < |r| ==> r[i] in DIGITS
  {
    if n < 10 then [DIGITS[n]] else Decimal(n / 10) + [DIGITS[n % 10]]
  }

  lemma {:induction false} DecimalIsInjective(m: nat, n: nat)
    requires Decimal(m) == Decimal(n)
    ensures m == n
    decreases m
  {
    var a, b := Decimal(m), Decimal(n);
    assert a[|a| - 1] == DIGITS[m % 10] && b[|b| - 1] == DIGITS[n % 10];
    assert forall i, j :: 0 <= i < j < 10 ==> DIGITS[i] != DIGITS[j];
    if m >= 10 && n >= 10 {
      assert a[..|a| - 1] == Decimal(m / 10) && b[..|b| - 1] == Decimal(n / 10);
      DecimalIsInjective(m / 10, n / 10);
    }
  }

  /** What a text of digits stands for. */
  function Number(s: string): int {
    if s == "" then 0 else 10 * Number(s[..|s| - 1]) + (s[|s| - 1] as int - '0' as int)
  }

  /** The decimal rendering stands for the number, without leading zeros. */
  lemma {:induction false} DecimalReadsBack(n: nat)
    ensures Number(Decimal(n)) == n && (Decimal(n)[0] == '0' ==> n == 0)
  {
    var s := Decimal(n);
    assert DIGITS[n % 10] as int - '0' as int == n % 10;
    if n < 10 {
      assert s[..|s| - 1] == "";
    } else {
      DecimalReadsBack(n / 10);
      assert s[..|s| - 1] == Decimal(n / 10);
    }
  }

  function Candidate(baseSlug: string, counter: nat): string { baseSlug + "-" + Decimal(counter) }

  /** A candidate is the base slug, a hyphen, and digits that stand for its number. */
  lemma CandidateReadsBack(baseSlug: string, counter: nat)
    ensures baseSlug + "-" <= Candidate(baseSlug, counter)
    ensures Number(Candidate(baseSlug, counter)[|baseSlug| + 1..]) == counter
  {
    var prefix := baseSlug + "-";
    assert Candidate(baseSlug, counter)[|prefix|..] == Decimal(counter);
    DecimalReadsBack(counter);
  }

  lemma CandidatesAreDistinct(baseSlug: string, i: nat, j: nat)
    requires i != j
    ensures Candidate(baseSlug, i) != Candidate(baseSlug, j) && Candidate(baseSlug, i) != baseSlug
  {
    var prefix := baseSlug + "-";
    assert Candidate(baseSlug, i)[|prefix|..] == Decimal(i) && Candidate(baseSlug, j)[|prefix|..] == Decimal(j);
    if Candidate(baseSlug, i) == Candidate(baseSlug, j) {
      DecimalIsInjective(i, j);
    }
  }

  /** The base slug and the candidates before `counter`. */
  function Tried(baseSlug: string, counter: nat): set<string>
    requires counter >= 1
  {
    if counter == 1 then {baseSlug} else Tried(baseSlug, counter - 1) + {Candidate(baseSlug, counter - 1)}
  }

  lemma {:induction false} TriedAreDistinct(baseSlug: string, counter: nat)
    requires counter >= 1
    ensures |Tried(baseSlug, counter)| == counter
    ensures forall i: nat :: i >= counter ==> Candidate(baseSlug, i) !in Tried(baseSlug, counter)
  {
    if counter > 1 {
      TriedAreDistinct(baseSlug, counter - 1);
    }
    forall i: nat | i >= counter ensures Candidate(baseSlug, i) !in Tried(baseSlug, counter) {
      CandidatesAreDistinct(baseSlug, i, counter - 1);
    }
  }

  lemma {:induction false} SetOfList(list: seq<string>, s: set<string>)
    requires forall x :: x in s ==> x in list
    ensures |s| <= |list|
  {
    if list == [] {
      assert s == {};
    } else {
      var rest := s - {list[0]};
      forall x | x in rest ensures x in list[1..] { assert x in list; }
      SetOfList(list[1..], rest);
    }
  }

  /** Pigeonhole: when the base slug and all candidates before `counter` are taken, `counter` is at most the
      number of taken slugs. */
  lemma TakenBoundsCounter(baseSlug: string, existingSlugs: seq<string>, counter: nat)
    requires counter >= 1 && forall x :: x in Tried(baseSlug, counter) ==> x in existingSlugs
    ensures counter <= |existingSlugs|
  {
    TriedAreDistinct(baseSlug, counter);
    SetOfList(existingSlugs, Tried(baseSlug, counter));
  }

  /** The base slug if it is free, and otherwise the first free candidate, whose number is at most the number
      of taken slugs: the loop body runs fewer times than there are taken slugs. */
  method GenerateUniqueSlug(baseSlug: string, existingSlugs: seq<string>) returns (uniqueSlug: string)
    ensures uniqueSlug !in existingSlugs
    ensures baseSlug !in existingSlugs ==> uniqueSlug == baseSlug
    ensures baseSlug in existingSlugs ==>
              exists counter: nat :: 1 <= counter <= |existingSlugs| && uniqueSlug == Candidate(baseSlug, counter) &&
                forall i: nat :: 1 <= i < counter ==> Candidate(baseSlug, i) in existingSlugs
  {
    if baseSlug !in existingSlugs {
      return baseSlug;
    }
    var counter := 1;
    uniqueSlug := Candidate(baseSlug, counter);
    TakenBoundsCounter(baseSlug, existingSlugs, 1);
    while uniqueSlug in existingSlugs
      invariant 1 <= counter <= |existingSlugs| && uniqueSlug == Candidate(baseSlug, counter)
      invariant forall x :: x in Tried(baseSlug, counter) ==> x in existingSlugs
      invariant forall i: nat :: 1 <= i < counter ==> Candidate(baseSlug, i) in existingSlugs
      decreases |existingSlugs| - counter
    {
      counter := counter + 1;
      TakenBoundsCounter(baseSlug, existingSlugs, counter);
      uniqueSlug := Candidate(baseSlug, counter);
    }
  }
}
