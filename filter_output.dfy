/**
 * `FilterOutputPlugin`: on webpack's `emit` hook, delete every asset whose
 * name is not in the whitelist, then call the continuation callback.
 */
module FilterOutput {
  import opened JsString
  import opened Webpack
  import Project

  /** The assets that survive filtering by `whitelist`, values untouched. */
  function Filtered(assets: map<string, Asset>, whitelist: seq<string>): map<string, Asset> {
    map name | name in assets && name in whitelist :: assets[name]
  }

  /**
   * Every remaining name is whitelisted, every whitelisted asset is kept
   * with its value, and nothing is added: the key set is the original key
   * set intersected with the whitelist.
   */
  lemma FilteredKeysAndValues(assets: map<string, Asset>, whitelist: seq<string>)
    ensures Filtered(assets, whitelist).Keys == assets.Keys * (set name | name in whitelist)
    ensures forall name :: name in Filtered(assets, whitelist) ==> Filtered(assets, whitelist)[name] == assets[name]
  {
  }

  /** Filtering twice is filtering once. */
  lemma FilterIdempotent(assets: map<string, Asset>, whitelist: seq<string>)
    ensures Filtered(Filtered(assets, whitelist), whitelist) == Filtered(assets, whitelist)
  {
  }

  /** An empty whitelist removes every asset. */
  lemma FilterEmptyWhitelist(assets: map<string, Asset>)
    ensures Filtered(assets, []) == map[]
  {
  }

  /**
   * With the whitelist of a project, only bundles built from its common
   * files survive: each remaining name is the output name of a common
   * file, or the name of that output's source map.
   */
  lemma FilterKeepsProjectOutputs(assets: map<string, Asset>, files: seq<string>, name: string)
    requires name in Filtered(assets, Project.Whitelist(files))
    ensures exists i :: 0 <= i < |files| && name in {Project.OutputName(files[i]), Project.OutputName(files[i]) + ".map"}
  {
    var outputs := Project.OutputNames(files);
    Project.WithMapsMembership(outputs, name);
    var i :| 0 <= i < |outputs| && (name == outputs[i] || name == outputs[i] + ".map");
    assert name in {Project.OutputName(files[i]), Project.OutputName(files[i]) + ".map"};
  }

  class FilterOutputPlugin {
    /** The whitelist given to the constructor, `None` when it was `undefined`. */
    const whitelist: Option<seq<string>>

    constructor (whitelist: Option<seq<string>>)
      ensures this.whitelist == whitelist
    {
      this.whitelist := whitelist;
    }

    /** The whitelist after `apply`'s destructuring default of `[]`. */
    function Effective(): (w: seq<string>)
      ensures whitelist.None? ==> w == []
      ensures whitelist.Some? ==> w == whitelist.value
    {
      if whitelist.Some? then whitelist.value else []
    }

    /**
     * The `emit` handler: for each name among the keys of
     * `compilation.assets`, delete the asset when the name is not in the
     * whitelist; then call the callback, once.
     */
    method Emit(compilation: Compilation) returns (events: seq<Event>)
      modifies compilation`assets
      ensures compilation.assets == Filtered(old(compilation.assets), Effective())
      ensures whitelist.None? ==> compilation.assets == map[]
      ensures events == [Callback]
    {
      var whitelist := Effective();
      ghost var original := compilation.assets;
      var names := compilation.assets.Keys;
      while names != {}
        invariant names <= original.Keys
        invariant compilation.assets == map name | name in original && (name in names || name in whitelist) :: original[name]
        decreases names
      {
        var name :| name in names;
        if ArrayIndexOf(whitelist, name) == -1 {
          compilation.assets := map n | n in compilation.assets && n != name :: compilation.assets[n];
        }
        names := names - {name};
      }
      if whitelist == [] {
        FilterEmptyWhitelist(original);
      }
      events := [Callback];
    }
  }

  /** `array.indexOf(x)`: the first index holding `x`, or `-1`. */
  function ArrayIndexOf(a: seq<string>, x: string): (r: int)
    ensures -1 <= r < |a|
    ensures r == -1 <==> x !in a
    ensures r != -1 ==> a[r] == x && x !in a[..r]
  {
    if a == [] then -1
    else if a[0] == x then 0
    else
      var r := ArrayIndexOf(a[1..], x);
      if r == -1 then -1 else r + 1
  }
}
