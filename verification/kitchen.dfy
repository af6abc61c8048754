/**
 * The meal side of kitchen/models.py: how many prospectives ("sophomores")
 * a meal holds, whether it is full, the count/limit text, and the bound on
 * an uploaded menu file.
 */
module Kitchen {
  import opened Wrappers
  import opened Text

  /** A Brunch, Lunch or Dinner: only the fields the capacity logic reads. */
  datatype Meal = Meal(id: nat, sophomoreLimit: int)

  /** A prospective's signup for a meal. */
  datatype MealEntry = MealEntry(meal: nat, netid: string)

  /** The meal's prospectivemealentry_set, in storage order. */
  function EntriesFor(meal: Meal, all: seq<MealEntry>): seq<MealEntry> {
    if all == [] then []
    else EntriesFor(meal, all[..|all| - 1]) + (if all[|all| - 1].meal == meal.id then [all[|all| - 1]] else [])
  }

  /** The positions of the entries attached to this meal. */
  function AttachedIndices(meal: Meal, all: seq<MealEntry>): set<int> {
    set k | 0 <= k < |all| && all[k].meal == meal.id
  }

  /**
   * Meal.num_of_sophomores (kitchen/models.py:64-68): the number of entries
   * attached to this meal, counted by position.
   */
  function NumOfSophomores(meal: Meal, all: seq<MealEntry>): (n: nat)
    ensures n == |AttachedIndices(meal, all)|
  {
    EntriesForCount(meal, all);
    |EntriesFor(meal, all)|
  }

  /** The filtered entries are exactly as many as the positions attached to the meal. */
  lemma {:induction false} EntriesForCount(meal: Meal, all: seq<MealEntry>)
    ensures |EntriesFor(meal, all)| == |AttachedIndices(meal, all)|
    decreases |all|
  {
    if all != [] {
      var p := all[..|all| - 1];
      var last := |all| - 1;
      EntriesForCount(meal, p);
      assert last !in AttachedIndices(meal, p);
      if all[last].meal == meal.id {
        assert AttachedIndices(meal, all) == AttachedIndices(meal, p) + {last};
      } else {
        assert AttachedIndices(meal, all) == AttachedIndices(meal, p);
      }
    }
  }

  /** Never more than the entries there are; all of them when all are this meal's. */
  lemma {:induction false} NumOfSophomoresBound(meal: Meal, all: seq<MealEntry>)
    ensures NumOfSophomores(meal, all) <= |all|
    ensures (forall k :: 0 <= k < |all| ==> all[k].meal == meal.id) ==> NumOfSophomores(meal, all) == |all|
    decreases |all|
  {
    if all != [] {
      NumOfSophomoresBound(meal, all[..|all| - 1]);
    }
  }

  /** Meal.is_full (kitchen/models.py:70-78): the attached entries have reached sophomore_limit. */
  predicate IsFull(meal: Meal, all: seq<MealEntry>): (full: bool)
    ensures full <==> |AttachedIndices(meal, all)| >= meal.sophomoreLimit
  {
    NumOfSophomores(meal, all) >= meal.sophomoreLimit
  }

  /** A limit of 0, the default ("Put '0' to not allow sophomores"), makes the meal full from the start. */
  lemma ZeroLimitAdmitsNobody(meal: Meal, all: seq<MealEntry>)
    requires meal.sophomoreLimit <= 0
    ensures IsFull(meal, []) && IsFull(meal, all)
  {
  }

  /** Fullness is monotone: adding an entry never makes a full meal non-full. */
  lemma {:induction false} FullStaysFull(meal: Meal, all: seq<MealEntry>, e: MealEntry)
    requires IsFull(meal, all)
    ensures IsFull(meal, all + [e])
  {
    assert AttachedIndices(meal, all) <= AttachedIndices(meal, all + [e]) by {
      forall k | k in AttachedIndices(meal, all) ensures k in AttachedIndices(meal, all + [e]) {
        assert (all + [e])[k] == all[k];
      }
    }
    SubsetCardinality(AttachedIndices(meal, all), AttachedIndices(meal, all + [e]));
  }

  lemma {:induction false} SubsetCardinality(a: set<int>, b: set<int>)
    requires a <= b
    ensures |a| <= |b|
  {
    assert b == a + (b - a);
  }

  /**
   * Meal.sophomore_limit_text (kitchen/models.py:80-85): "<count>/<limit>",
   * the count before the first '/' and the limit after it.
   */
  function SophomoreLimitText(meal: Meal, all: seq<MealEntry>): (t: string)
    ensures IndexOf(t, '/') < |t|
    ensures t[..IndexOf(t, '/')] == IntToString(NumOfSophomores(meal, all))
    ensures t[IndexOf(t, '/') + 1..] == IntToString(meal.sophomoreLimit)
  {
    var a := IntToString(NumOfSophomores(meal, all));
    var b := IntToString(meal.sophomoreLimit);
    var t := a + "/" + b;
    assert t[|a|] == '/';
    assert forall j :: 0 <= j < |a| ==> t[j] == a[j];
    assert IndexOf(t, '/') == |a|;
    assert t[..|a|] == a && t[|a| + 1..] == b;
    t
  }

  /** Reads a "<count>/<limit>" text back, splitting at the first '/'. */
  function ParseLimitText(t: string): Option<(int, int)> {
    var k := IndexOf(t, '/');
    if k == |t| then None
    else
      var a := t[..k];
      var b := t[k + 1..];
      if IsIntText(a) && IsIntText(b) then Some((ParseInt(a), ParseInt(b))) else None
  }

  /** The text gives back exactly the count and the limit it was made from. */
  lemma {:induction false} LimitTextRoundTrip(meal: Meal, all: seq<MealEntry>)
    ensures ParseLimitText(SophomoreLimitText(meal, all)) == Some((NumOfSophomores(meal, all), meal.sophomoreLimit))
  {
    ParseIntToString(NumOfSophomores(meal, all));
    ParseIntToString(meal.sophomoreLimit);
  }

  /** validate_file's bound: 5 megabytes of 1024 * 1024 bytes. */
  const MegabyteLimit: nat := 5
  const MaxUploadBytes: nat := MegabyteLimit * 1024 * 1024

  datatype UploadCheck = Accepted | Rejected(megabyteLimit: nat)

  /** validate_file (kitchen/models.py:37-44): refuse a file larger than the bound. */
  function ValidateFile(size: nat): (r: UploadCheck)
    ensures r.Rejected? <==> size > 5242880
    ensures r.Rejected? ==> r.megabyteLimit == 5
  {
    if size > MaxUploadBytes then Rejected(MegabyteLimit) else Accepted
  }

  /** Exactly 5 MiB is still accepted; one byte more is refused. */
  lemma UploadBoundary()
    ensures ValidateFile(5 * 1024 * 1024) == Accepted
    ensures ValidateFile(5 * 1024 * 1024 + 1) == Rejected(5)
  {
  }
}
