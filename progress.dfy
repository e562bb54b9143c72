/**
 The chapter progress record (js/main.js:62-88 and 122-135) as values: the
 mapping from chapter id to completion flag kept in local storage under
 `git-lecture-progress`, the click toggle on it, the completed count and
 the rounded percentage, and the label texts rendered from the count.
 */
module Progress {
  import opened Common

  const TotalChapters: nat := 9

  /** What `JSON.parse` gives back for the stored object: each value is
      reduced to its truthiness. */
  type ProgressMap = map<string, bool>

  /** What `localStorage.getItem('git-lecture-progress')` can hold. */
  datatype StoredItem =
    | Absent                            // getItem returns null
    | EmptyText                         // ""
    | Unparsable                        // JSON.parse throws
    | Serialized(entries: ProgressMap)  // what saveProgress wrote

  /** `getProgress`: never fails; anything but a stored mapping reads as `{}`. */
  function Load(item: StoredItem): (m: ProgressMap)
    ensures item.Serialized? ==> m == item.entries
    ensures !item.Serialized? ==> m == map[]
  {
    match item
    case Serialized(entries) => entries
    case _ => map[]
  }

  /** `progress[c]` is truthy. */
  predicate Truthy(m: ProgressMap, c: string) {
    c in m && m[c]
  }

  /** Every stored value is `true`: the only value the page ever writes. */
  predicate AllTrue(m: ProgressMap) {
    forall k :: k in m ==> m[k]
  }

  /** The click handler's change to the mapping: `delete prog[c]` when it was
      truthy, `prog[c] = true` otherwise. */
  function Toggled(m: ProgressMap, c: string): (r: ProgressMap)
    ensures Truthy(r, c) == !Truthy(m, c)
    ensures Truthy(m, c) ==> c !in r
    ensures c in r ==> r[c]
    ensures forall k :: k != c ==> (k in r <==> k in m)
    ensures forall k :: k != c && k in r ==> r[k] == m[k]
  {
    if Truthy(m, c) then m - {c} else m[c := true]
  }

  /** Only `true` is ever written, so a mapping holding nothing else keeps
      holding nothing else. */
  lemma ToggleKeepsAllTrue(m: ProgressMap, c: string)
    requires AllTrue(m)
    ensures AllTrue(Toggled(m, c))
  {
  }

  /** Toggling the same chapter twice gives the mapping back. */
  lemma ToggleTwice(m: ProgressMap, c: string)
    requires AllTrue(m)
    ensures Toggled(Toggled(m, c), c) == m
  {
    var r := Toggled(Toggled(m, c), c);
    assert r.Keys == m.Keys;
  }

  /** Without the invariant the round trip fails: a stored `false` is first
      set to `true` and then deleted. */
  lemma ToggleTwiceNeedsAllTrue()
    ensures Toggled(Toggled(map["1" := false], "1"), "1") == map[]
  {
    var m := map["1" := false];
    assert Toggled(m, "1") == map["1" := true];
    assert Toggled(map["1" := true], "1").Keys == {};
  }

  function TruthyKeys(m: ProgressMap): set<string> {
    set k | k in m && m[k]
  }

  /** `Object.values(progress).filter(Boolean).length`. */
  function CompletedCount(m: ProgressMap): (n: nat)
    ensures n <= |m|
    ensures n == 0 <==> forall k :: k in m ==> !m[k]
  {
    var t := TruthyKeys(m);
    SubsetCard(t, m.Keys);
    assert (forall k :: k in m ==> !m[k]) ==> t == {};
    assert t == {} ==> forall k :: k in m ==> !m[k] by {
      if t == {} {
        forall k | k in m
          ensures !m[k]
        {
          assert k !in t;
        }
      }
    }
    |t|
  }

  /** A subset is no larger than the set it is drawn from. */
  lemma {:induction false} SubsetCard<T>(a: set<T>, b: set<T>)
    requires a <= b
    ensures |a| <= |b|
    decreases b
  {
    if a != {} {
      var x :| x in a;
      SubsetCard(a - {x}, b - {x});
    }
  }

  /** Completing a chapter adds one to the count, undoing it takes one away. */
  lemma ToggleCount(m: ProgressMap, c: string)
    ensures !Truthy(m, c) ==> CompletedCount(Toggled(m, c)) == CompletedCount(m) + 1
    ensures Truthy(m, c) ==> CompletedCount(Toggled(m, c)) == CompletedCount(m) - 1
  {
    var r := Toggled(m, c);
    if Truthy(m, c) {
      assert TruthyKeys(r) == TruthyKeys(m) - {c};
    } else {
      assert TruthyKeys(r) == TruthyKeys(m) + {c};
    }
  }

  /** Under the invariant every stored chapter is counted once. */
  lemma AllTrueCount(m: ProgressMap)
    requires AllTrue(m)
    ensures CompletedCount(m) == |m|
  {
    assert TruthyKeys(m) == m.Keys;
  }

  /** `Math.round(count / TotalChapters * 100)`. The exact value
      `100 * count / 9` is never a half, so the floating-point rounding and
      the tie rule play no part. */
  function Percent(count: nat): (p: nat)
    ensures -(TotalChapters as int) <= 2 * TotalChapters * p - 200 * count <= TotalChapters
  {
    (200 * count + TotalChapters) / (2 * TotalChapters)
  }

  /** The integer within one half of `100 * count / 9` is unique, so
      `Percent` is the rounded percentage. */
  lemma PercentIsRounding(count: nat, q: int)
    requires -(TotalChapters as int) <= 2 * TotalChapters * q - 200 * count <= TotalChapters
    ensures q == Percent(count)
  {
    // 18 * q - 200 * count is even, so it is never -9: the bounds put
    // 18 * q within [200 * count - 8, 200 * count + 9], the range that
    // division by 18 maps to q.
    var y := 9 * q - 100 * count;
    assert 18 * q - 200 * count == 2 * y;
    assert 18 * q <= 200 * count + 9 < 18 * q + 18;
  }

  lemma PercentExamples()
    ensures Percent(0) == 0 && Percent(3) == 33 && Percent(6) == 67 && Percent(9) == 100
  {
  }

  /** More chapters done never shows a smaller percentage. */
  lemma PercentMonotone(a: nat, b: nat)
    requires a <= b
    ensures Percent(a) <= Percent(b)
  {
  }

  /** Nothing caps the count, so more than nine completed ids show more than
      100 percent. */
  lemma PercentUncapped(count: nat)
    requires count > TotalChapters
    ensures Percent(count) > 100
  {
  }

  /** `${count}/${TOTAL_CHAPTERS} 완료` in the sidebar: it opens with the
      count, which reads back from its leading digits. */
  function SidebarLabel(count: nat): (r: string)
    ensures var k := |Decimal(count)|;
      k < |r| && AllDigits(r[..k]) && !IsDigit(r[k]) && DigitsValue(r[..k]) == count
  {
    var rest := "/" + Decimal(TotalChapters) + " 완료";
    ReadLeadingNumber(count, rest);
    Decimal(count) + rest
  }

  /** `${count} / ${TOTAL_CHAPTERS} 챕터 완료` in the chapter header. */
  function HeaderLabel(count: nat): (r: string)
    ensures var k := |Decimal(count)|;
      k < |r| && AllDigits(r[..k]) && !IsDigit(r[k]) && DigitsValue(r[..k]) == count
  {
    var rest := " / " + Decimal(TotalChapters) + " 챕터 완료";
    ReadLeadingNumber(count, rest);
    Decimal(count) + rest
  }

  /** `pct + '%'` on the index page. */
  function PercentText(pct: nat): (r: string)
    ensures var k := |Decimal(pct)|;
      k < |r| && AllDigits(r[..k]) && !IsDigit(r[k]) && DigitsValue(r[..k]) == pct
    ensures r[|r| - 1] == '%'
  {
    ReadLeadingNumber(pct, "%");
    Decimal(pct) + "%"
  }
}
