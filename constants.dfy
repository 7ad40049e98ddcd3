/**
 * The closed sets of roast levels and moods (lib/constants.ts): two tables
 * of rows with an id, an emoji, a label and a description, and the types
 * whose values are exactly the ids of the rows.
 */
module Constants {
  import opened Wrappers

  /** One row of ROAST_LEVELS or MOODS (`label` is a Dafny keyword, hence `labelText`). */
  datatype Entry = Entry(id: string, emoji: string, labelText: string, description: string)

  const RoastLevels: seq<Entry> := [
    Entry("easy", "\U{1F336}\U{FE0F}", "Easy Roast", "Gentle teasing with a smile"),
    Entry("medium", "\U{1F525}", "Medium Roast", "Solid burns with attitude"),
    Entry("hard", "\U{1F480}", "Hard Roast", "Brutal and unfiltered destruction")
  ]

  const Moods: seq<Entry> := [
    Entry("angry", "\U{1F621}", "Angry", "Furious and aggressive tone"),
    Entry("happy", "\U{1F604}", "Happy", "Cheerful but cutting remarks"),
    Entry("humorous", "\U{1F602}", "Humorous", "Funny and witty comebacks"),
    Entry("sarcastic", "\U{1F9D0}", "Sarcastic", "Dry wit and clever mockery")
  ]

  /** `RoastLevel`: one value per row of RoastLevels, in row order. */
  datatype RoastLevel = Easy | Medium | Hard

  /** `Mood`: one value per row of Moods, in row order. */
  datatype Mood = Angry | Happy | Humorous | Sarcastic

  function LevelIndex(l: RoastLevel): nat
  {
    match l
    case Easy => 0
    case Medium => 1
    case Hard => 2
  }

  function MoodIndex(m: Mood): nat
  {
    match m
    case Angry => 0
    case Happy => 1
    case Humorous => 2
    case Sarcastic => 3
  }

  /** The row of RoastLevels that a level stands for. */
  function LevelEntry(l: RoastLevel): Entry
  {
    RoastLevels[LevelIndex(l)]
  }

  /** The row of Moods that a mood stands for. */
  function MoodEntry(m: Mood): Entry
  {
    Moods[MoodIndex(m)]
  }

  function LevelId(l: RoastLevel): string
  {
    LevelEntry(l).id
  }

  function MoodId(m: Mood): string
  {
    MoodEntry(m).id
  }

  /** `table.map(e => e.id)` */
  function Ids(table: seq<Entry>): (r: seq<string>)
    ensures |r| == |table|
    ensures forall i :: 0 <= i < |table| ==> r[i] == table[i].id
  {
    if table == [] then [] else [table[0].id] + Ids(table[1..])
  }

  /** Position of the first row of the table whose id is `id`, or -1. */
  function FindId(table: seq<Entry>, id: string): (r: int)
    ensures -1 <= r < |table|
    ensures r >= 0 ==> table[r].id == id && forall j :: 0 <= j < r ==> table[j].id != id
    ensures r == -1 <==> id !in Ids(table)
  {
    if table == [] then -1
    else if table[0].id == id then 0
    else
      var k := FindId(table[1..], id);
      assert Ids(table) == [table[0].id] + Ids(table[1..]);
      if k < 0 then -1 else k + 1
  }

  /** The validator's `z.enum(ROAST_LEVELS.map(r => r.id))`: the level named `id`, if any. */
  function LevelOfId(id: string): (r: Option<RoastLevel>)
    ensures r.Some? <==> id in Ids(RoastLevels)
    ensures r.Some? ==> LevelId(r.value) == id
  {
    var i := FindId(RoastLevels, id);
    if i < 0 then None
    else Some(if i == 0 then Easy else if i == 1 then Medium else Hard)
  }

  /** The validator's `z.enum(MOODS.map(m => m.id))`: the mood named `id`, if any. */
  function MoodOfId(id: string): (r: Option<Mood>)
    ensures r.Some? <==> id in Ids(Moods)
    ensures r.Some? ==> MoodId(r.value) == id
  {
    var i := FindId(Moods, id);
    if i < 0 then None
    else Some(if i == 0 then Angry else if i == 1 then Happy else if i == 2 then Humorous else Sarcastic)
  }

  /** Ids pairwise distinct, and every row has an emoji, a label and a description. */
  predicate WellFormed(table: seq<Entry>)
  {
    (forall i, j :: 0 <= i < j < |table| ==> table[i].id != table[j].id)
    && forall i :: 0 <= i < |table| ==> table[i].emoji != [] && table[i].labelText != [] && table[i].description != []
  }

  /** ROAST_LEVELS lists easy, medium, hard in that order; MOODS lists angry, happy, humorous, sarcastic. */
  lemma TableIds()
    ensures Ids(RoastLevels) == ["easy", "medium", "hard"]
    ensures Ids(Moods) == ["angry", "happy", "humorous", "sarcastic"]
  {
  }

  lemma TablesWellFormed()
    ensures WellFormed(RoastLevels) && WellFormed(Moods)
  {
    // Ids of equal length differ in their first letter; the others differ in length.
    forall i, j | 0 <= i < j < |RoastLevels|
      ensures RoastLevels[i].id != RoastLevels[j].id
    {
      if i == 0 && j == 2 {
        assert RoastLevels[i].id[0] != RoastLevels[j].id[0];
      } else {
        assert |RoastLevels[i].id| != |RoastLevels[j].id|;
      }
    }
    forall i, j | 0 <= i < j < |Moods|
      ensures Moods[i].id != Moods[j].id
    {
      if i == 0 && j == 1 {
        assert Moods[i].id[0] != Moods[j].id[0];
      } else {
        assert |Moods[i].id| != |Moods[j].id|;
      }
    }
  }

  /** Every level's id is a row id, every row id names a level, and the id determines the level. */
  lemma {:induction false} LevelIdsExact(id: string, l: RoastLevel)
    ensures LevelId(l) in Ids(RoastLevels)
    ensures LevelOfId(LevelId(l)) == Some(l)
    ensures id in Ids(RoastLevels) <==> exists l' :: LevelId(l') == id
  {
    TableIds();
    if id in Ids(RoastLevels) {
      assert LevelId(LevelOfId(id).value) == id;
    }
  }

  /** Every mood's id is a row id, every row id names a mood, and the id determines the mood. */
  lemma {:induction false} MoodIdsExact(id: string, m: Mood)
    ensures MoodId(m) in Ids(Moods)
    ensures MoodOfId(MoodId(m)) == Some(m)
    ensures id in Ids(Moods) <==> exists m' :: MoodId(m') == id
  {
    TableIds();
    if id in Ids(Moods) {
      assert MoodId(MoodOfId(id).value) == id;
    }
  }
}
