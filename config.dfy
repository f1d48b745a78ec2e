/**
 * The command-line package's `Config`: a dictionary of settings that the
 * constructor fills with defaults for every key the caller did not supply,
 * and that `set` and `update` change in place. A Python dict is a shared,
 * mutable object, so it is a class here; the configuration holds a
 * reference to one.
 */
module MdConfig {

  /** The kinds of value the defaults use, plus Python's `None`. */
  datatype Value = Null | Str(s: string) | Bool(b: bool) | Int(i: int) | StrList(items: seq<string>)

  type Entries = map<string, Value>

  /** The defaults, in the order `_set_defaults` visits them. */
  const Defaults: seq<(string, Value)> := [
    ("output_dir", Str("output")),
    ("images_dir", Str("assets/images")),
    ("templates_dir", Str("assets/templates")),
    ("preserve_images", Bool(true)),
    ("clean_html", Bool(true)),
    ("strip_javascript", Bool(true)),
    ("convert_links", Bool(true)),
    ("markdown_extensions", StrList([".md"])),
    ("max_image_size", Int(5 * 1024 * 1024)),
    ("supported_image_formats", StrList([".jpg", ".jpeg", ".png", ".gif", ".webp", ".svg"])),
    ("optimize_images", Bool(false)),
    ("add_metadata", Bool(true)),
    ("add_toc", Bool(false)),
    ("wrap_width", Int(80)),
    ("heading_style", Str("atx")),
    ("log_level", Str("INFO")),
    ("log_file", Str("conversion.log")),
    ("max_file_size", Int(50 * 1024 * 1024)),
    ("timeout", Int(30))
  ]

  /** `ds[i]` is the first entry of `ds` for its key. */
  predicate FirstFor(ds: seq<(string, Value)>, i: int)
    requires 0 <= i < |ds|
  {
    forall j :: 0 <= j < i ==> ds[j].0 != ds[i].0
  }

  /**
   * The entries after visiting `ds` in order, adding each key that is not
   * there yet: keys already present keep their value, and the result has
   * exactly the keys of `m` and of `ds`.
   */
  function Fill(m: Entries, ds: seq<(string, Value)>): (r: Entries)
    ensures forall k :: k in m ==> k in r && r[k] == m[k]
    ensures forall i :: 0 <= i < |ds| ==> ds[i].0 in r
    ensures forall k :: k in r ==> k in m || exists i :: 0 <= i < |ds| && ds[i].0 == k
    decreases |ds|
  {
    if ds == [] then m
    else
      var p := Fill(m, ds[..|ds| - 1]);
      var last := ds[|ds| - 1];
      if last.0 in p then p else p[last.0 := last.1]
  }

  /** A key the caller did not supply gets the value of its first entry in `ds`. */
  lemma {:induction false} FillFirst(m: Entries, ds: seq<(string, Value)>, i: int)
    requires 0 <= i < |ds| && FirstFor(ds, i) && ds[i].0 !in m
    ensures Fill(m, ds)[ds[i].0] == ds[i].1
    decreases |ds|
  {
    var front := ds[..|ds| - 1];
    if i < |ds| - 1 {
      assert front[i] == ds[i];
      FillFirst(m, front, i);
    } else {
      assert forall j :: 0 <= j < |front| ==> front[j].0 != ds[i].0;
    }
  }

  /** A mutable Python dict. */
  class Dict {
    var entries: Entries

    constructor(m: Entries)
      ensures entries == m
    {
      entries := m;
    }
  }

  class Config {
    var config: Dict

    /**
     * `Config(config_dict)`: `config_dict or {}`, so a non-empty dict is
     * shared with the caller and receives the defaults in place, while a
     * missing or empty one is replaced by a fresh dict and left alone.
     */
    constructor(d: Dict?)
      modifies d
      ensures d != null && old(d.entries) != map[] ==> config == d
      ensures d == null || old(d.entries) == map[] ==> fresh(config)
      ensures d != null && old(d.entries) == map[] ==> d.entries == map[]
      ensures config.entries == Fill(if d == null then map[] else old(d.entries), Defaults)
    {
      if d != null && d.entries != map[] {
        config := d;
      } else {
        config := new Dict(map[]);
      }
      new;
      SetDefaults();
    }

    /** `_set_defaults`: every default key the dict lacks is added, in order. */
    method SetDefaults()
      modifies config
      ensures config.entries == Fill(old(config.entries), Defaults)
    {
      ghost var start := config.entries;
      for i := 0 to |Defaults|
        invariant config.entries == Fill(start, Defaults[..i])
      {
        var key, value := Defaults[i].0, Defaults[i].1;
        assert Defaults[..i + 1][..i] == Defaults[..i];
        if key !in config.entries {
          config.entries := config.entries[key := value];
        }
      }
      assert Defaults[..|Defaults|] == Defaults;
    }

    /** `get(key, default)`. */
    function Get(key: string, default: Value): (r: Value)
      reads this, config
      ensures key in config.entries ==> r == config.entries[key]
      ensures key !in config.entries ==> r == default
    {
      if key in config.entries then config.entries[key] else default
    }

    /** `set(key, value)`: afterwards `get(key)` is `value` and every other key is as before. */
    method Set(key: string, value: Value)
      modifies config
      ensures config.entries == old(config.entries)[key := value]
      ensures forall d :: Get(key, d) == value
      ensures forall k, d :: k != key ==> Get(k, d) == old(Get(k, d))
    {
      config.entries := config.entries[key := value];
    }

    /** `update(m)`: the keys of `m` take `m`'s values; every other key is as before. */
    method Update(m: Entries)
      modifies config
      ensures config.entries == old(config.entries) + m
      ensures forall k, d :: k in m ==> Get(k, d) == m[k]
      ensures forall k, d :: k !in m ==> Get(k, d) == old(Get(k, d))
    {
      config.entries := config.entries + m;
    }

    /** `to_dict()`: a fresh dict with the same entries, so changing it leaves the configuration alone. */
    method ToDict() returns (r: Dict)
      ensures fresh(r) && r.entries == config.entries
    {
      r := new Dict(config.entries);
    }
  }

  /** A key the caller did not supply gets its default. */
  lemma DefaultAt(m: Entries, i: int)
    requires 0 <= i < |Defaults| && FirstFor(Defaults, i) && Defaults[i].0 !in m
    ensures Defaults[i].0 in Fill(m, Defaults) && Fill(m, Defaults)[Defaults[i].0] == Defaults[i].1
  {
    FillFirst(m, Defaults, i);
  }

  /** The defaults the package's tests read: output directory, images directory, image preservation and log level. */
  lemma OutputDirDefault(m: Entries)
    ensures "output_dir" !in m ==> "output_dir" in Fill(m, Defaults) && Fill(m, Defaults)["output_dir"] == Str("output")
  {
    if "output_dir" !in m {
      assert Defaults[0] == ("output_dir", Str("output"));
      DefaultAt(m, 0);
    }
  }

  lemma ImagesDirDefault(m: Entries)
    ensures "images_dir" !in m ==> "images_dir" in Fill(m, Defaults) && Fill(m, Defaults)["images_dir"] == Str("assets/images")
  {
    if "images_dir" !in m {
      assert Defaults[1] == ("images_dir", Str("assets/images"));
      DefaultAt(m, 1);
    }
  }

  lemma PreserveImagesDefault(m: Entries)
    ensures "preserve_images" !in m ==> "preserve_images" in Fill(m, Defaults) && Fill(m, Defaults)["preserve_images"] == Bool(true)
  {
    if "preserve_images" !in m {
      assert Defaults[3] == ("preserve_images", Bool(true));
      DefaultAt(m, 3);
    }
  }

  lemma LogLevelDefault(m: Entries)
    ensures "log_level" !in m ==> "log_level" in Fill(m, Defaults) && Fill(m, Defaults)["log_level"] == Str("INFO")
  {
    if "log_level" !in m {
      assert Defaults[15] == ("log_level", Str("INFO"));
      DefaultAt(m, 15);
    }
  }
}
