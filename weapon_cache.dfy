/**
 * The weapon cache: the class -> weapons table of `weapons.json`, inverted
 * into a weapon -> class lookup that is built once at start-up.
 */
module WeaponCache {

  /** The table as `json.load` hands it over: one (class, weapons) row per class, in file order. */
  type Table = seq<(string, seq<string>)>

  /** The weapons of one row, each mapped to that row's class. */
  function RowCache(cls: string, weapons: seq<string>): (r: map<string, string>) {
    map w | w in weapons :: cls
  }

  /**
   * The dictionary comprehension `{weapon: cls for cls, weapons in table for weapon in weapons}`:
   * rows are entered in order, so a weapon listed under two classes ends up with the later one.
   */
  function BuildCache(table: Table): (r: map<string, string>)
    decreases |table|
  {
    if table == [] then map[]
    else
      var last := table[|table| - 1];
      BuildCache(table[..|table| - 1]) + RowCache(last.0, last.1)
  }

  /** A weapon is known to the cache exactly when some row lists it. */
  lemma {:induction false} CacheDomain(table: Table, w: string)
    ensures w in BuildCache(table) <==> exists i :: 0 <= i < |table| && w in table[i].1
    decreases |table|
  {
    if table != [] {
      var front := table[..|table| - 1];
      CacheDomain(front, w);
      if w in BuildCache(front) {
        var i :| 0 <= i < |front| && w in front[i].1;
        assert table[i] == front[i];
      }
      if exists i :: 0 <= i < |table| && w in table[i].1 {
        var i :| 0 <= i < |table| && w in table[i].1;
        if i < |front| {
          assert front[i] == table[i];
        }
      }
    }
  }

  /**
   * The class the cache gives a weapon is the class of the LAST row listing it:
   * if row i lists w and no later row does, the cache maps w to row i's class.
   */
  lemma {:induction false} CacheLastRowWins(table: Table, w: string, i: nat)
    requires i < |table| && w in table[i].1
    requires forall j :: i < j < |table| ==> w !in table[j].1
    ensures w in BuildCache(table) && BuildCache(table)[w] == table[i].0
    decreases |table|
  {
    var front := table[..|table| - 1];
    if i < |table| - 1 {
      forall j | i < j < |front|
        ensures w !in front[j].1
      {
        assert front[j] == table[j];
      }
      CacheLastRowWins(front, w, i);
    }
  }

  /** Whatever class the cache gives a weapon, some row lists that weapon under that class. */
  lemma {:induction false} CacheSound(table: Table, w: string)
    requires w in BuildCache(table)
    ensures exists i :: 0 <= i < |table| && w in table[i].1 && table[i].0 == BuildCache(table)[w]
    decreases |table|
  {
    var front := table[..|table| - 1];
    var last := table[|table| - 1];
    if w !in last.1 {
      CacheSound(front, w);
      var i :| 0 <= i < |front| && w in front[i].1 && front[i].0 == BuildCache(front)[w];
      assert table[i] == front[i];
    }
  }
}
