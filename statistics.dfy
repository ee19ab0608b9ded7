/** getStatistics of StudentService: count, mean, highest and lowest GPA. */
module StudentStatistics {
  import opened StudentModel
  import opened StudentRules

  /** The summary returned by getStatistics. */
  datatype Statistics = Statistics(totalStudents: nat, averageGPA: real, highestGPA: real, lowestGPA: real)

  /** No record has a negative GPA. */
  predicate NoNegativeGpa(s: seq<Student>)
  {
    forall k | 0 <= k < |s| :: 0.0 <= s[k].gpa
  }

  /**
   * `reduce((sum, gpa) => sum + gpa, 0)`: the GPAs added from the left. A sum
   * of GPAs none of which is negative is not negative.
   */
  function SumGpa(s: seq<Student>): (sum: real)
    ensures NoNegativeGpa(s) ==> 0.0 <= sum
  {
    if s == [] then 0.0
    else
      var init := s[..|s| - 1];
      assert forall k | 0 <= k < |init| :: init[k] == s[k];
      SumGpa(init) + s[|s| - 1].gpa
  }

  /** The left-fold sum also unfolds from the front: the first GPA plus the sum of the rest. */
  lemma {:induction false} SumGpaFromFront(s: seq<Student>)
    requires s != []
    ensures SumGpa(s) == s[0].gpa + SumGpa(s[1..])
  {
    if |s| > 1 {
      var init := s[..|s| - 1];
      SumGpaFromFront(init);
      assert init[1..] == s[1..][..|s| - 2];
    }
  }

  /** `Math.max(...gpas)`: the largest GPA, which is one of the GPAs. */
  function MaxGpa(s: seq<Student>): (m: real)
    requires |s| > 0
    ensures exists k | 0 <= k < |s| :: s[k].gpa == m
    ensures forall k | 0 <= k < |s| :: s[k].gpa <= m
  {
    if |s| == 1 then s[0].gpa
    else
      var rest := MaxGpa(s[1..]);
      assert forall k | 1 <= k < |s| :: s[k] == s[1..][k - 1];
      if s[0].gpa >= rest then s[0].gpa else rest
  }

  /** `Math.min(...gpas)`: the smallest GPA, which is one of the GPAs. */
  function MinGpa(s: seq<Student>): (m: real)
    requires |s| > 0
    ensures exists k | 0 <= k < |s| :: s[k].gpa == m
    ensures forall k | 0 <= k < |s| :: m <= s[k].gpa
  {
    if |s| == 1 then s[0].gpa
    else
      var rest := MinGpa(s[1..]);
      assert forall k | 1 <= k < |s| :: s[k] == s[1..][k - 1];
      if s[0].gpa <= rest then s[0].gpa else rest
  }

  /** A sum of n GPAs, each within [lo, hi], lies within [n * lo, n * hi]. */
  lemma {:induction false} SumGpaBounds(s: seq<Student>, lo: real, hi: real)
    requires forall k | 0 <= k < |s| :: lo <= s[k].gpa <= hi
    ensures |s| as real * lo <= SumGpa(s) <= |s| as real * hi
  {
    if s != [] {
      var init := s[..|s| - 1];
      assert forall k | 0 <= k < |init| :: init[k] == s[k];
      SumGpaBounds(init, lo, hi);
      assert |s| as real * lo == |init| as real * lo + lo;
      assert |s| as real * hi == |init| as real * hi + hi;
    }
  }

  /** The mean of n > 0 GPAs lies between their minimum and maximum. */
  lemma {:induction false} MeanBetween(s: seq<Student>, lo: real, hi: real)
    requires |s| > 0
    requires forall k | 0 <= k < |s| :: lo <= s[k].gpa <= hi
    ensures lo <= SumGpa(s) / |s| as real <= hi
  {
    SumGpaBounds(s, lo, hi);
    QuotientBounds(SumGpa(s), |s| as real, lo, hi);
  }

  /** Dividing n * lo <= x <= n * hi by a positive n. */
  lemma QuotientBounds(x: real, n: real, lo: real, hi: real)
    requires n > 0.0
    requires n * lo <= x
    requires x <= n * hi
    ensures lo <= x / n <= hi
  {
  }

  /**
   * getStatistics over a collection: all zero when it is empty; otherwise its
   * size, the exact mean, and the maximum and minimum GPA, both of them GPAs
   * of some record, with lowest <= mean <= highest; and when every record
   * satisfies the GPA rule, all three lie in [0, 4.0].
   */
  function ComputeStatistics(s: seq<Student>): (st: Statistics)
    ensures s == [] ==> st == Statistics(0, 0.0, 0.0, 0.0)
    ensures s != [] ==>
              && st.totalStudents == |s|
              && st.averageGPA == SumGpa(s) / |s| as real
              && (exists k | 0 <= k < |s| :: s[k].gpa == st.highestGPA)
              && (forall k | 0 <= k < |s| :: s[k].gpa <= st.highestGPA)
              && (exists k | 0 <= k < |s| :: s[k].gpa == st.lowestGPA)
              && (forall k | 0 <= k < |s| :: st.lowestGPA <= s[k].gpa)
              && st.lowestGPA <= st.averageGPA <= st.highestGPA
    ensures (forall k | 0 <= k < |s| :: ValidateGpa(s[k].gpa)) ==>
              0.0 <= st.lowestGPA && st.highestGPA <= 4.0 &&
              0.0 <= st.averageGPA <= 4.0
  {
    if s == [] then Statistics(0, 0.0, 0.0, 0.0)
    else
      var hi := MaxGpa(s);
      var lo := MinGpa(s);
      var mean := SumGpa(s) / |s| as real;
      MeanBetween(s, lo, hi);
      Statistics(|s|, mean, hi, lo)
  }

  /** Two records with GPAs 3.8 and 3.5: count 2, mean 3.65, highest 3.8, lowest 3.5. */
  lemma StatisticsExample(a: Student, b: Student)
    requires a.gpa == 3.8 && b.gpa == 3.5
    ensures ComputeStatistics([a, b]) == Statistics(2, 3.65, 3.8, 3.5)
  {
    var s := [a, b];
    assert s[..1] == [a] && [a][..0] == [];
    assert SumGpa([a]) == 3.8;
    assert SumGpa(s) == 7.3;
  }
}
