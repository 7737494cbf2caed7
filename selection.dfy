/**
 * Which cell size is active. Each entry of the size list has a name, a size and an enabled flag;
 * the editor pass switches entries on from the preference store, the play-mode pass writes the
 * enabled names back, and both take the size of the last enabled entry.
 */
module Selection {
  import opened Prefs

  /** The value of one `FixedCellSizes` entry: `SizeName`, `CellSize`, `EnableSize`. */
  datatype SizeOption = SizeOption(name: string, size: real, enabled: bool)

  /**
   * One entry of the editor pass: switched on when reading its name from the store (the empty
   * string if absent) gives back its name.
   */
  function Enable(o: SizeOption, store: map<string, string>): (r: SizeOption)
    ensures r.name == o.name && r.size == o.size
    ensures r.enabled <==> o.enabled || Lookup(store, o.name) == o.name
  {
    if o.name == Lookup(store, o.name) then o.(enabled := true) else o
  }

  /** The list after the editor pass has enabled entries from the store. */
  function Selected(opts: seq<SizeOption>, store: map<string, string>): (r: seq<SizeOption>)
    ensures |r| == |opts|
    ensures forall k :: 0 <= k < |opts| ==> r[k].name == opts[k].name && r[k].size == opts[k].size
    ensures forall k :: 0 <= k < |opts| ==> opts[k].enabled ==> r[k].enabled
    ensures forall k :: 0 <= k < |opts| ==> (r[k].enabled <==> opts[k].enabled || Lookup(store, opts[k].name) == opts[k].name)
  {
    seq(|opts|, k requires 0 <= k < |opts| => Enable(opts[k], store))
  }

  /** The list with every entry switched off, as a rebuild produces it. */
  function Disabled(opts: seq<SizeOption>): (r: seq<SizeOption>)
    ensures |r| == |opts|
    ensures forall k :: 0 <= k < |opts| ==> r[k] == opts[k].(enabled := false)
  {
    seq(|opts|, k requires 0 <= k < |opts| => opts[k].(enabled := false))
  }

  /** The size a left-to-right scan ends with when every enabled entry overwrites `current`. */
  function LastEnabledSize(opts: seq<SizeOption>, current: real): real {
    if opts == [] then current
    else if opts[|opts| - 1].enabled then opts[|opts| - 1].size
    else LastEnabledSize(opts[..|opts| - 1], current)
  }

  predicate IsLastEnabled(opts: seq<SizeOption>, k: int) {
    0 <= k < |opts| && opts[k].enabled && forall j :: k < j < |opts| ==> !opts[j].enabled
  }

  /** With no entry enabled the scan keeps `current`. */
  lemma {:induction false} LastEnabledSizeNone(opts: seq<SizeOption>, current: real)
    requires forall k :: 0 <= k < |opts| ==> !opts[k].enabled
    ensures LastEnabledSize(opts, current) == current
  {
    if opts != [] {
      LastEnabledSizeNone(opts[..|opts| - 1], current);
    }
  }

  /** "Last enabled wins": the scan ends with the size of the last enabled entry. */
  lemma {:induction false} LastEnabledSizeIsLast(opts: seq<SizeOption>, current: real, k: int)
    requires IsLastEnabled(opts, k)
    ensures LastEnabledSize(opts, current) == opts[k].size
  {
    var n := |opts| - 1;
    if k < n {
      var init := opts[..n];
      assert IsLastEnabled(init, k);
      LastEnabledSizeIsLast(init, current, k);
    }
  }

  /** A list with an enabled entry has a last one. */
  lemma {:induction false} LastEnabledExists(opts: seq<SizeOption>, k: int)
    requires 0 <= k < |opts| && opts[k].enabled
    ensures exists m :: IsLastEnabled(opts, m)
  {
    var n := |opts| - 1;
    if opts[n].enabled {
      assert IsLastEnabled(opts, n);
    } else {
      var init := opts[..n];
      assert init[k].enabled;
      LastEnabledExists(init, k);
      var m :| IsLastEnabled(init, m);
      assert IsLastEnabled(opts, m);
    }
  }

  /** The chosen size is `current` or the size of some enabled entry. */
  lemma {:induction false} LastEnabledSizeSource(opts: seq<SizeOption>, current: real)
    ensures var r := LastEnabledSize(opts, current);
      r == current || exists k :: 0 <= k < |opts| && opts[k].enabled && r == opts[k].size
  {
    if opts != [] && !opts[|opts| - 1].enabled {
      var init := opts[..|opts| - 1];
      LastEnabledSizeSource(init, current);
      if LastEnabledSize(init, current) != current {
        var k :| 0 <= k < |init| && init[k].enabled && LastEnabledSize(init, current) == init[k].size;
        assert opts[k] == init[k];
      }
    }
  }

  /** Scanning the same list twice changes nothing the first scan did not already settle. */
  lemma {:induction false} LastEnabledSizeStable(opts: seq<SizeOption>, current: real)
    ensures LastEnabledSize(opts, LastEnabledSize(opts, current)) == LastEnabledSize(opts, current)
  {
    if opts != [] && !opts[|opts| - 1].enabled {
      LastEnabledSizeStable(opts[..|opts| - 1], current);
    }
  }

  /** A second editor pass with the same store changes neither the flags nor the chosen size. */
  lemma SelectionIdempotent(opts: seq<SizeOption>, store: map<string, string>, current: real)
    ensures Selected(Selected(opts, store), store) == Selected(opts, store)
    ensures var once := Selected(opts, store);
      LastEnabledSize(once, LastEnabledSize(once, current)) == LastEnabledSize(once, current)
  {
    LastEnabledSizeStable(Selected(opts, store), current);
  }

  /** The store after the play-mode pass has written each enabled name under itself, in list order. */
  function Remember(opts: seq<SizeOption>, store: map<string, string>): map<string, string> {
    if opts == [] then store
    else
      var r := Remember(opts[..|opts| - 1], store);
      var o := opts[|opts| - 1];
      if o.enabled then r[o.name := o.name] else r
  }

  predicate EnabledName(opts: seq<SizeOption>, key: string) {
    exists k :: 0 <= k < |opts| && opts[k].enabled && opts[k].name == key
  }

  /** Every enabled name is stored under itself; every other key keeps what it had. */
  lemma {:induction false} RememberSpec(opts: seq<SizeOption>, store: map<string, string>, key: string)
    ensures var r := Remember(opts, store);
      EnabledName(opts, key) ==> key in r && r[key] == key
    ensures var r := Remember(opts, store);
      !EnabledName(opts, key) ==> (key in r <==> key in store) && (key in store ==> r[key] == store[key])
  {
    if opts != [] {
      var n := |opts| - 1;
      var init := opts[..n];
      RememberSpec(init, store, key);
      if EnabledName(opts, key) && !(opts[n].enabled && opts[n].name == key) {
        var k :| 0 <= k < |opts| && opts[k].enabled && opts[k].name == key;
        assert k < n && init[k] == opts[k];
      }
      if EnabledName(init, key) {
        var k :| 0 <= k < |init| && init[k].enabled && init[k].name == key;
        assert opts[k] == init[k];
      }
    }
  }

  /**
   * What the play-mode pass stores, read back by the editor pass into the same list with every flag
   * cleared, restores exactly the flags that were set, provided names are non-empty and distinct.
   */
  lemma RememberThenSelect(opts: seq<SizeOption>)
    requires forall k :: 0 <= k < |opts| ==> opts[k].name != ""
    requires forall j, k :: 0 <= j < k < |opts| ==> opts[j].name != opts[k].name
    ensures Selected(Disabled(opts), Remember(opts, map[])) == opts
  {
    var store := Remember(opts, map[]);
    var r := Selected(Disabled(opts), store);
    forall k | 0 <= k < |opts|
      ensures r[k] == opts[k]
    {
      var o := opts[k];
      RememberSpec(opts, map[], o.name);
      if o.enabled {
        assert EnabledName(opts, o.name);
        assert Lookup(store, o.name) == o.name;
      } else {
        assert !EnabledName(opts, o.name) by {
          forall j | 0 <= j < |opts| && opts[j].enabled
            ensures opts[j].name != o.name
          {
            assert j != k;
          }
        }
        assert Lookup(store, o.name) == "";
      }
    }
  }
}
