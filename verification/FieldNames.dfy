/**
 * SQLiface::getColNames of sql_interface.hpp: MATLAB struct field names out of SQL column names.
 * A column name is cut to g_namelengthmax characters, everything but ASCII letters and digits
 * becomes '_', a name that does not start with a letter gets an "X" in front, and a name that is
 * taken gets a numbered suffix, found by a loop that restarts whenever it changes the name.
 */
module FieldNames {
  datatype StringPair = StringPair(sqlName: string, matlabName: string)

  predicate IsLetter(c: char) { 'a' <= c <= 'z' || 'A' <= c <= 'Z' }

  predicate IsDigit(c: char) { '0' <= c <= '9' }

  predicate IsFieldChar(c: char) { IsLetter(c) || IsDigit(c) || c == '_' }

  /** What MATLAB accepts as a field name, its length aside. */
  predicate IsFieldName(s: string) {
    s != "" && IsLetter(s[0]) && forall c <- s :: IsFieldChar(c)
  }

  function ToAlphanum(c: char): (r: char)
    ensures IsFieldChar(r)
  {
    if IsLetter(c) || IsDigit(c) then c else '_'
  }

  /** The first n characters, or all of them. */
  function Truncate(s: string, n: nat): (t: string)
    ensures |t| <= n && t <= s
  {
    if |s| <= n then s else s[..n]
  }

  function Clean(s: string): (t: string)
    ensures |t| == |s| && forall i :: 0 <= i < |t| ==> t[i] == ToAlphanum(s[i])
  {
    seq(|s|, i requires 0 <= i < |s| => ToAlphanum(s[i]))
  }

  /** The name before any suffix. */
  function Base(column: string, maxLength: nat): (s: string)
    ensures IsFieldName(s)
  {
    var cut := Truncate(column, maxLength);
    var clean := Clean(cut);
    if clean == "" || !IsLetter(clean[0]) then "X" + clean else clean
  }

  function DigitChar(d: nat): (c: char)
    requires d < 10
    ensures IsDigit(c)
  {
    '0' + d as char
  }

  /** "_%d" for the numbers the loop can reach. */
  function Suffix(number: nat): (s: string)
    requires 1 <= number < 100
    ensures 2 <= |s| <= 3
  {
    if number < 10 then ['_', DigitChar(number)] else ['_', DigitChar(number / 10), DigitChar(number % 10)]
  }

  /** The name the loop tests after k collisions: the base itself, then base and suffix within maxLength. */
  function Candidate(base: string, k: nat, maxLength: nat): (s: string)
    requires k < 100 && maxLength >= 4
  {
    if k == 0 then base else Truncate(base, maxLength - |Suffix(k)|) + Suffix(k)
  }

  lemma NoSuffix(base: string, maxLength: nat)
    requires maxLength >= 4
    ensures Candidate(base, 0, maxLength) == base
  {}

  predicate Taken(names: seq<string>, base: string, k: nat, maxLength: nat)
    requires k < 100 && maxLength >= 4
  {
    Candidate(base, k, maxLength) in names
  }

  /** k is the number of collisions after which the loop settles. */
  ghost predicate Settles(names: seq<string>, base: string, k: nat, maxLength: nat)
    requires maxLength >= 4
  {
    k < 99 && !Taken(names, base, k, maxLength) && forall j: nat :: j < k ==> Taken(names, base, j, maxLength)
  }

  /** The 99 names the loop tests, "number < 100" included, are all taken. */
  ghost predicate Exhausted(names: seq<string>, base: string, maxLength: nat)
    requires maxLength >= 4
  {
    forall k: nat :: k < 99 ==> Taken(names, base, k, maxLength)
  }

  /**
   * The field names of columns: every column gets the first of its candidates that no earlier
   * column has, and the list does not exist when a column has none.
   */
  ghost predicate FirstFreeNames(columns: seq<string>, maxLength: nat, names: seq<string>)
    requires maxLength >= 4
  {
    && |names| == |columns|
    && forall i :: 0 <= i < |columns| ==> FirstFree(names[..i], Base(columns[i], maxLength), maxLength, names[i])
  }

  ghost predicate FirstFree(earlier: seq<string>, base: string, maxLength: nat, name: string)
    requires maxLength >= 4
  {
    exists k: nat :: Settles(earlier, base, k, maxLength) && name == Candidate(base, k, maxLength)
  }

  /** Some prefix gets names, and the column after it has no free candidate. */
  ghost predicate Unnameable(columns: seq<string>, maxLength: nat)
    requires maxLength >= 4
  {
    exists names: seq<string> ::
      && |names| < |columns|
      && FirstFreeNames(columns[..|names|], maxLength, names)
      && Exhausted(names, Base(columns[|names|], maxLength), maxLength)
  }

  /** The inner loop: it starts over at column 0 whenever it changes the name. */
  method FindName(base: string, names: seq<string>, maxLength: nat) returns (found: bool, name: string)
    requires maxLength >= 4
    ensures found ==> FirstFree(names, base, maxLength, name)
    ensures !found ==> Exhausted(names, base, maxLength)
  {
    name := base;
    var loop, number := 0, 1;
    while loop < |names| && number < 100
      invariant 0 <= loop <= |names| && 1 <= number <= 100
      invariant name == Candidate(base, number - 1, maxLength)
      invariant forall j :: 0 <= j < loop ==> names[j] != name
      invariant forall k: nat :: k < number - 1 ==> Taken(names, base, k, maxLength)
      invariant number == 100 ==> loop < |names|
      decreases 100 - number, |names| - loop
    {
      if name == names[loop] {
        name := Candidate(base, number, maxLength);
        loop := 0;
        number := number + 1;
      } else {
        loop := loop + 1;
      }
    }
    found := loop == |names|;
    assert found ==> Settles(names, base, number - 1, maxLength);
  }

  method GetColNames(columns: seq<string>, maxLength: nat, checkUnique: bool)
    returns (ok: bool, pairs: seq<StringPair>)
    requires maxLength >= 4
    ensures ok <==> !(checkUnique && Unnameable(columns, maxLength))
    ensures !ok ==> pairs == []
    ensures ok ==> |pairs| == |columns| && forall i :: 0 <= i < |columns| ==> pairs[i].sqlName == columns[i]
    ensures ok && checkUnique ==> FirstFreeNames(columns, maxLength, MatlabNames(pairs))
    ensures ok && !checkUnique ==>
      forall i :: 0 <= i < |columns| ==> pairs[i].matlabName == Base(columns[i], maxLength)
  {
    hide Base, FirstFree, Exhausted;
    ok, pairs := true, [];
    for i := 0 to |columns|
      invariant |pairs| == i
      invariant forall j :: 0 <= j < i ==> pairs[j].sqlName == columns[j]
      invariant checkUnique ==> FirstFreeNames(columns[..i], maxLength, MatlabNames(pairs))
      invariant !checkUnique ==>
        forall j :: 0 <= j < i ==> pairs[j].matlabName == Base(columns[j], maxLength)
    {
      var name := Base(columns[i], maxLength);
      var pair := StringPair(columns[i], name);
      if checkUnique {
        var names := MatlabNames(pairs);
        var found;
        found, name := FindName(name, names, maxLength);
        if !found {
          assert |names| == i && columns[..|names|] == columns[..i];
          return false, [];
        }
        ExtendNames(columns, maxLength, names, name);
        pair := StringPair(columns[i], name);
        assert MatlabNames(pairs + [pair]) == names + [name];
      }
      pairs := pairs + [pair];
    }
    assert columns[..|columns|] == columns;
    if checkUnique {
      NamedIsNotUnnameable(columns, maxLength, MatlabNames(pairs));
    }
  }

  function MatlabNames(pairs: seq<StringPair>): (names: seq<string>)
    ensures |names| == |pairs|
  {
    seq(|pairs|, i requires 0 <= i < |pairs| => pairs[i].matlabName)
  }

  lemma ExtendNames(columns: seq<string>, maxLength: nat, names: seq<string>, name: string)
    requires maxLength >= 4 && |names| < |columns|
    requires FirstFreeNames(columns[..|names|], maxLength, names)
    requires FirstFree(names, Base(columns[|names|], maxLength), maxLength, name)
    ensures FirstFreeNames(columns[..|names| + 1], maxLength, names + [name])
  {
    var n := |names|;
    forall i | 0 <= i < n + 1
      ensures FirstFree((names + [name])[..i], Base(columns[..n + 1][i], maxLength), maxLength, (names + [name])[i])
    {
      assert (names + [name])[..i] == names[..i];
      if i == n {
        assert names[..n] == names;
      } else {
        assert columns[..n][i] == columns[i];
      }
    }
  }

  lemma FirstFreeUnique(earlier: seq<string>, base: string, maxLength: nat, a: string, b: string)
    requires maxLength >= 4
    requires FirstFree(earlier, base, maxLength, a) && FirstFree(earlier, base, maxLength, b)
    ensures a == b
  {}

  /** First-free names are determined by the columns. */
  lemma {:induction false} NamesDetermined(columns: seq<string>, maxLength: nat, a: seq<string>, b: seq<string>, n: nat)
    requires maxLength >= 4 && n <= |a| && n <= |b| && |a| <= |columns| && |b| <= |columns|
    requires FirstFreeNames(columns[..|a|], maxLength, a) && FirstFreeNames(columns[..|b|], maxLength, b)
    ensures a[..n] == b[..n]
    decreases n
  {
    hide FirstFree, Base;
    if n > 0 {
      var i := n - 1;
      NamesDetermined(columns, maxLength, a, b, i);
      var base := Base(columns[i], maxLength);
      assert columns[..|a|][i] == columns[i] == columns[..|b|][i];
      assert FirstFree(a[..i], base, maxLength, a[i]) && FirstFree(b[..i], base, maxLength, b[i]);
      FirstFreeUnique(a[..i], base, maxLength, a[i], b[i]);
      assert a[..n] == a[..i] + [a[i]] && b[..n] == b[..i] + [b[i]];
    }
  }

  lemma NamedIsNotUnnameable(columns: seq<string>, maxLength: nat, names: seq<string>)
    requires maxLength >= 4 && FirstFreeNames(columns, maxLength, names)
    ensures !Unnameable(columns, maxLength)
  {
    forall other: seq<string> | |other| < |columns| && FirstFreeNames(columns[..|other|], maxLength, other)
      ensures !Exhausted(other, Base(columns[|other|], maxLength), maxLength)
    {
      var n := |other|;
      assert columns[..|columns|] == columns;
      NamesDetermined(columns, maxLength, names, other, n);
      assert other == other[..n] == names[..n];
      assert FirstFree(names[..n], Base(columns[n], maxLength), maxLength, names[n]);
    }
  }

  // ----- What the names are good for -------------------------------------------------------

  /** Field names are pairwise distinct and well formed. */
  lemma NamesAreUsable(columns: seq<string>, maxLength: nat, names: seq<string>)
    requires maxLength >= 4 && FirstFreeNames(columns, maxLength, names)
    ensures forall i, j :: 0 <= i < j < |names| ==> names[i] != names[j]
    ensures forall i :: 0 <= i < |names| ==> IsFieldName(names[i])
  {
    hide Base, Candidate;
    forall i, j | 0 <= i < j < |names| ensures names[i] != names[j] {
      var k :| Settles(names[..j], Base(columns[j], maxLength), k, maxLength)
        && names[j] == Candidate(Base(columns[j], maxLength), k, maxLength);
      assert names[i] == names[..j][i];
    }
    forall i | 0 <= i < |names| ensures IsFieldName(names[i]) {
      var base := Base(columns[i], maxLength);
      var k :| Settles(names[..i], base, k, maxLength) && names[i] == Candidate(base, k, maxLength);
      CandidateIsFieldName(base, k, maxLength);
    }
  }

  lemma CandidateIsFieldName(base: string, k: nat, maxLength: nat)
    requires IsFieldName(base) && k < 100 && maxLength >= 4
    ensures IsFieldName(Candidate(base, k, maxLength))
    ensures k == 0 ==> Candidate(base, k, maxLength) == base
    ensures k > 0 ==> |Candidate(base, k, maxLength)| <= maxLength
  {
    if k > 0 {
      var head := Truncate(base, maxLength - |Suffix(k)|);
      assert Candidate(base, k, maxLength)[0] == head[0] == base[0];
      forall c | c in head ensures IsFieldChar(c) {
        assert c in base;
      }
    }
  }

  /** The columns whose name is cut and then gets an "X" in front. */
  predicate CutAndPrefixed(column: string, maxLength: nat) {
    |column| >= maxLength > 0 && !IsLetter(column[0])
  }

  lemma LongBase(column: string, maxLength: nat)
    requires maxLength > 0
    ensures |Base(column, maxLength)| == maxLength + 1 <==> CutAndPrefixed(column, maxLength)
    ensures |Base(column, maxLength)| <= maxLength + 1
  {}

  /**
   * A field name is longer than MATLAB allows, by one character, exactly for the first column of
   * those that are cut and prefixed to the same name.
   */
  lemma {:induction false} TooLong(columns: seq<string>, maxLength: nat, names: seq<string>, i: nat)
    requires maxLength >= 4 && FirstFreeNames(columns, maxLength, names) && i < |columns|
    ensures |names[i]| <= maxLength + 1
    ensures |names[i]| > maxLength <==>
      CutAndPrefixed(columns[i], maxLength)
      && forall j :: 0 <= j < i ==> Base(columns[j], maxLength) != Base(columns[i], maxLength)
    decreases i
  {
    hide Base, Candidate, CutAndPrefixed;
    var base := Base(columns[i], maxLength);
    LongBase(columns[i], maxLength);
    var k :| Settles(names[..i], base, k, maxLength) && names[i] == Candidate(base, k, maxLength);
    CandidateIsFieldName(base, k, maxLength);
    CandidateIsFieldName(base, 0, maxLength);
    assert k == 0 <==> !Taken(names[..i], base, 0, maxLength);
    if CutAndPrefixed(columns[i], maxLength) {
      if base in names[..i] {
        var j :| 0 <= j < i && names[j] == base;
        OwnsItsBase(columns, maxLength, names, j);
        assert Base(columns[j], maxLength) == base;
      }
      if j :| 0 <= j < i && Base(columns[j], maxLength) == base {
        var first := FirstWithBase(columns, maxLength, base, j);
        LongBase(columns[first], maxLength);
        TooLong(columns, maxLength, names, first);
        OwnsItsBase(columns, maxLength, names, first);
        assert names[..i][first] == base;
      }
    }
  }

  /** Only the base itself can be that long. */
  lemma OwnsItsBase(columns: seq<string>, maxLength: nat, names: seq<string>, j: nat)
    requires maxLength >= 4 && FirstFreeNames(columns, maxLength, names) && j < |columns|
    ensures |names[j]| > maxLength ==> names[j] == Base(columns[j], maxLength)
  {
    hide Base, Candidate;
    var base := Base(columns[j], maxLength);
    var k :| Settles(names[..j], base, k, maxLength) && names[j] == Candidate(base, k, maxLength);
    CandidateIsFieldName(base, k, maxLength);
  }

  lemma {:induction false} FirstWithBase(columns: seq<string>, maxLength: nat, base: string, j: nat)
    returns (first: nat)
    requires j < |columns| && Base(columns[j], maxLength) == base
    ensures first <= j && Base(columns[first], maxLength) == base
    ensures forall h :: 0 <= h < first ==> Base(columns[h], maxLength) != base
    decreases j
  {
    hide Base;
    if h :| 0 <= h < j && Base(columns[h], maxLength) == base {
      first := FirstWithBase(columns, maxLength, base, h);
    } else {
      first := j;
    }
  }

  /** So some name is too long if and only if some column is cut and prefixed. */
  lemma TooLongSomewhere(columns: seq<string>, maxLength: nat, names: seq<string>)
    requires maxLength >= 4 && FirstFreeNames(columns, maxLength, names)
    ensures (exists i :: 0 <= i < |names| && |names[i]| > maxLength) <==>
            (exists i :: 0 <= i < |columns| && |columns[i]| >= maxLength && !IsLetter(columns[i][0]))
  {
    hide Base, FirstFree;
    if i :| 0 <= i < |names| && |names[i]| > maxLength {
      TooLong(columns, maxLength, names, i);
    }
    if i :| 0 <= i < |columns| && |columns[i]| >= maxLength && !IsLetter(columns[i][0]) {
      var first := FirstWithBase(columns, maxLength, Base(columns[i], maxLength), i);
      LongBase(columns[i], maxLength);
      LongBase(columns[first], maxLength);
      TooLong(columns, maxLength, names, first);
    }
  }

  /** A column of digits is enough, for every limit. */
  lemma DigitsAreTooLong(maxLength: nat) returns (column: string, name: string)
    requires maxLength >= 4
    ensures FirstFreeNames([column], maxLength, [name]) && |name| == maxLength + 1
  {
    column := seq(maxLength, _ => '7');
    name := Base(column, maxLength);
    NoSuffix(name, maxLength);
    assert Settles([], name, 0, maxLength);
    assert [name][..0] == [];
    LongBase(column, maxLength);
  }

  /**
   * The base character by character: the column name, cut to the limit, with an "X" in front unless it
   * starts with a letter; letters and digits are kept, and everything else becomes '_'.
   */
  lemma BaseIs(column: string, maxLength: nat)
    ensures var n := if |column| < maxLength then |column| else maxLength;
      var shift := if n > 0 && IsLetter(column[0]) then 0 else 1;
      var s := Base(column, maxLength);
      && |s| == shift + n && (shift == 1 ==> s[0] == 'X')
      && forall i :: 0 <= i < n ==> s[shift + i] == if IsLetter(column[i]) || IsDigit(column[i]) then column[i] else '_'
  {
    hide ToAlphanum, IsLetter, IsDigit, IsFieldChar, IsFieldName, Clean;
    forall i | 0 <= i < |column|
      ensures ToAlphanum(column[i]) == if IsLetter(column[i]) || IsDigit(column[i]) then column[i] else '_'
      ensures IsLetter(ToAlphanum(column[i])) <==> IsLetter(column[i])
    {
      KeptOrReplaced(column[i]);
    }
  }

  /** Letters and digits are kept, everything else is replaced, and nothing becomes a letter. */
  lemma KeptOrReplaced(c: char)
    ensures ToAlphanum(c) == if IsLetter(c) || IsDigit(c) then c else '_'
    ensures IsLetter(ToAlphanum(c)) <==> IsLetter(c)
  {}

  /** A name that MATLAB accepts is kept. */
  lemma UsableKept(column: string, maxLength: nat)
    requires IsFieldName(column) && |column| <= maxLength
    ensures Base(column, maxLength) == column
  {
    var s := Base(column, maxLength);
    forall i | 0 <= i < |column| ensures ToAlphanum(column[i]) == column[i] {
      assert column[i] in column;
    }
  }

  /** Letters are those of ASCII, without regard to case; '_' is none, so it cannot come first. */
  lemma BaseExamples()
    ensures Base("Name2", 63) == "Name2" && Base("count(*)", 63) == "count___" && Base("_id", 63) == "X_id"
    ensures Base("2nd col", 63) == "X2nd_col" && Base("", 63) == "X" && Base("azAZ09", 63) == "azAZ09"
    ensures Base("abcdef", 4) == "abcd"
  {}

  /** The suffix is '_' and the number in decimal notation, without leading zeros. */
  lemma SuffixIs(number: nat)
    requires 1 <= number < 100
    ensures var s := Suffix(number);
      && s[0] == '_' && s[1] != '0' && (|s| == 3 <==> number >= 10)
      && (|s| == 2 ==> number == s[1] as int - '0' as int)
      && (|s| == 3 ==> number == 10 * (s[1] as int - '0' as int) + (s[2] as int - '0' as int))
    ensures Suffix(7) == "_7" && Suffix(42) == "_42"
  {}

  /** Candidate k is the start of the base and the suffix, and as long as the limit allows. */
  lemma CandidateIs(base: string, k: nat, maxLength: nat)
    requires 1 <= k < 100 && maxLength >= 4
    ensures var s, tail := Candidate(base, k, maxLength), Suffix(k);
      && |s| == (if |base| + |tail| < maxLength then |base| + |tail| else maxLength)
      && s[|s| - |tail|..] == tail && s[..|s| - |tail|] <= base
  {}

  /** Column names that are usable and distinct already are the field names. */
  lemma {:induction false} GoodNamesKept(columns: seq<string>, maxLength: nat, names: seq<string>)
    requires maxLength >= 4 && FirstFreeNames(columns, maxLength, names)
    requires forall i :: 0 <= i < |columns| ==> IsFieldName(columns[i]) && |columns[i]| <= maxLength
    requires forall i, j :: 0 <= i < j < |columns| ==> columns[i] != columns[j]
    ensures names == columns
    decreases |columns|
  {
    hide Base, Candidate, IsFieldName;
    if columns != [] {
      var n := |columns| - 1;
      ShorterNames(columns, maxLength, names);
      GoodNamesKept(columns[..n], maxLength, names[..n]);
      UsableKept(columns[n], maxLength);
      NoSuffix(columns[n], maxLength);
      assert !Taken(names[..n], columns[n], 0, maxLength);
      assert names == names[..n] + [names[n]] && columns == columns[..n] + [columns[n]];
    }
  }

  lemma ShorterNames(columns: seq<string>, maxLength: nat, names: seq<string>)
    requires maxLength >= 4 && columns != [] && FirstFreeNames(columns, maxLength, names)
    ensures FirstFreeNames(columns[..|columns| - 1], maxLength, names[..|columns| - 1])
  {
    hide FirstFree, Base;
    var n := |columns| - 1;
    forall i | 0 <= i < n
      ensures FirstFree(names[..n][..i], Base(columns[..n][i], maxLength), maxLength, names[..n][i])
    {
      assert names[..n][..i] == names[..i];
    }
  }

  /** The second of two equal names gets the number 1. */
  lemma SecondGetsOne(name: string, maxLength: nat, names: seq<string>)
    requires maxLength >= 4 && IsFieldName(name) && |name| <= maxLength - 2
    requires FirstFreeNames([name, name], maxLength, names)
    ensures names == [name, name + "_1"]
  {
    hide IsFieldName, Base;
    UsableKept(name, maxLength);
    var columns := [name, name];
    assert names[..0] == [] && names[..1] == [names[0]];
    assert FirstFree([], name, maxLength, names[0]) && FirstFree([names[0]], name, maxLength, names[1]);
    assert !Taken([], name, 0, maxLength);
    assert names[0] == name;
    assert Taken([name], name, 0, maxLength) && Candidate(name, 1, maxLength) == name + "_1";
    assert !Taken([name], name, 1, maxLength);
  }

  // ----- When the names exist ---------------------------------------------------------------

  /** Numbered candidates differ, truncation notwithstanding: the suffix is never cut. */
  lemma CandidatesDiffer(base: string, j: nat, k: nat, maxLength: nat)
    requires 1 <= j < k < 100 && maxLength >= 4
    ensures Candidate(base, j, maxLength) != Candidate(base, k, maxLength)
  {
    var s, t := Candidate(base, j, maxLength), Candidate(base, k, maxLength);
    assert s[|s| - 1] == DigitChar(j % 10) && t[|t| - 1] == DigitChar(k % 10);
    assert s[|s| - 2] == if j < 10 then '_' else DigitChar(j / 10);
    assert t[|t| - 2] == if k < 10 then '_' else DigitChar(k / 10);
  }

  /** The first n numbered candidates, as a set of n names. */
  lemma {:induction false} CandidateSet(base: string, n: nat, maxLength: nat) returns (all: set<string>)
    requires n < 100 && maxLength >= 4
    ensures |all| == n
    ensures forall s :: s in all <==> exists k :: 1 <= k <= n && s == Candidate(base, k, maxLength)
  {
    hide Candidate;
    if n == 0 {
      all := {};
    } else {
      var less := CandidateSet(base, n - 1, maxLength);
      var last := Candidate(base, n, maxLength);
      forall k | 1 <= k <= n - 1 ensures Candidate(base, k, maxLength) != last {
        CandidatesDiffer(base, k, n, maxLength);
      }
      all := less + {last};
    }
  }

  lemma {:induction false} ElementsOf(names: seq<string>) returns (elements: set<string>)
    ensures |elements| <= |names| && forall s :: s in elements <==> s in names
  {
    if names == [] {
      elements := {};
    } else {
      var rest := ElementsOf(names[1..]);
      elements := rest + {names[0]};
    }
  }

  lemma SubsetSize(a: set<string>, b: set<string>)
    requires a <= b
    ensures |a| <= |b|
    decreases a
  {
    if x :| x in a {
      SubsetSize(a - {x}, b - {x});
    }
  }

  /** Pigeonhole: to use up the 98 numbered candidates takes 98 earlier columns. */
  lemma ExhaustionNeedsColumns(names: seq<string>, base: string, maxLength: nat)
    requires maxLength >= 4 && Exhausted(names, base, maxLength)
    ensures |names| >= 98
  {
    var all := CandidateSet(base, 98, maxLength);
    var elements := ElementsOf(names);
    forall s | s in all ensures s in elements {
      var k :| 1 <= k <= 98 && s == Candidate(base, k, maxLength);
      assert Taken(names, base, k, maxLength);
    }
    SubsetSize(all, elements);
  }

  /** With at most 98 columns, MSG_ERRVARNAME cannot occur. */
  lemma NinetyEightAlwaysWork(columns: seq<string>, maxLength: nat)
    requires maxLength >= 4 && |columns| <= 98
    ensures !Unnameable(columns, maxLength)
  {
    forall names: seq<string> | |names| < |columns| && FirstFreeNames(columns[..|names|], maxLength, names)
      ensures !Exhausted(names, Base(columns[|names|], maxLength), maxLength)
    {
      if Exhausted(names, Base(columns[|names|], maxLength), maxLength) {
        ExhaustionNeedsColumns(names, Base(columns[|names|], maxLength), maxLength);
      }
    }
  }

  /** The bound is exact: a name that already is its own first candidate fails on its 99th use. */
  lemma NinetyNineCanFail(column: string, maxLength: nat)
    requires maxLength >= 4
    requires Candidate(Base(column, maxLength), 1, maxLength) == Base(column, maxLength)
    ensures Unnameable(seq(99, _ => column), maxLength)
  {
    hide Base, Candidate, FirstFree;
    NoSuffix(Base(column, maxLength), maxLength);
    var base := Base(column, maxLength);
    var columns := seq(99, _ => column);
    var names := seq(98, i requires 0 <= i < 98 => Candidate(base, i + 1, maxLength));
    assert names[0] == base;
    forall k: nat | k < 99 ensures Taken(names, base, k, maxLength) {
      if k > 0 {
        assert names[k - 1] == Candidate(base, k, maxLength);
      }
    }
    forall i | 0 <= i < 98
      ensures FirstFree(names[..i], Base(columns[..98][i], maxLength), maxLength, names[i])
    {
      RepeatedColumn(base, i, maxLength, names);
    }
    assert FirstFreeNames(columns[..98], maxLength, names);
  }

  /** So for every limit there are 99 columns that get MSG_ERRVARNAME: "XX..X_1", repeated. */
  lemma NinetyNineFailSomewhere(maxLength: nat) returns (columns: seq<string>)
    requires maxLength >= 4
    ensures |columns| == 99 && Unnameable(columns, maxLength)
  {
    var column := seq(maxLength - 2, _ => 'X') + "_1";
    assert Truncate(column, maxLength) == column;
    assert Base(column, maxLength) == column;
    assert Truncate(column, maxLength - 2) + Suffix(1) == column;
    NinetyNineCanFail(column, maxLength);
    columns := seq(99, _ => column);
  }

  lemma RepeatedColumn(base: string, i: nat, maxLength: nat, names: seq<string>)
    requires maxLength >= 4 && i < 98 && |names| == 98
    requires Candidate(base, 1, maxLength) == base
    requires forall j :: 0 <= j < 98 ==> names[j] == Candidate(base, j + 1, maxLength)
    ensures FirstFree(names[..i], base, maxLength, names[i])
  {
    hide Candidate;
    NoSuffix(base, maxLength);
    var k := if i == 0 then 0 else i + 1;
    forall j | 0 <= j < i ensures names[j] != names[i] {
      CandidatesDiffer(base, j + 1, i + 1, maxLength);
    }
    forall j: nat | j < k ensures Taken(names[..i], base, j, maxLength) {
      if j == 0 {
        assert names[..i][0] == base;
      } else {
        assert names[..i][j - 1] == Candidate(base, j, maxLength);
      }
    }
    assert Settles(names[..i], base, k, maxLength);
  }

  /** More columns behind them do not help columns that cannot be named. */
  lemma MoreColumns(columns: seq<string>, more: seq<string>, maxLength: nat)
    requires maxLength >= 4 && Unnameable(columns, maxLength)
    ensures Unnameable(columns + more, maxLength)
  {
    hide FirstFreeNames, Exhausted, Base;
    var names: seq<string> :| |names| < |columns|
      && FirstFreeNames(columns[..|names|], maxLength, names)
      && Exhausted(names, Base(columns[|names|], maxLength), maxLength);
    assert (columns + more)[..|names|] == columns[..|names|];
  }

  /** So 98 is the exact number of columns that can always be named. */
  lemma AlwaysNameable(n: nat, maxLength: nat)
    requires maxLength >= 4
    ensures (forall columns: seq<string> :: |columns| == n ==> !Unnameable(columns, maxLength)) <==> n <= 98
  {
    hide Unnameable;
    if n <= 98 {
      forall columns: seq<string> | |columns| == n ensures !Unnameable(columns, maxLength) {
        NinetyEightAlwaysWork(columns, maxLength);
      }
    } else {
      var columns := NinetyNineFailSomewhere(maxLength);
      MoreColumns(columns, seq(n - 99, _ => ""), maxLength);
      assert |columns + seq(n - 99, _ => "")| == n;
    }
  }
}
