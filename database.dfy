/** The key/value facade of src/index.js: a `Sifbase` instance reads and writes an
    abstract Keyv table and remembers, in its `cache`, the last value it read or wrote
    for each key. Handles are shared through a registry keyed by (path, namespace), the
    source's static `NAMESPACED_TABLES`. */
module Database {
  import opened JsValues
  import opened JsText

  /** The store adapter a new handle is opened with. */
  datatype Backend =
    | FileStore(file: string)   // a SifStore over a ".json" or ".sifdb" file
    | Adapter(uri: string)      // `new Keyv(path, opts)`: Keyv picks an adapter from the URI
    | InMemory                  // `new Keyv(opts)` with no path

  /** A Keyv handle: an unordered table from string keys to values. */
  class KeyvStore {
    var entries: map<string, Value>
    const backend: Backend

    /** Opens a handle; `persisted` is what the backing medium already holds. */
    constructor (backend: Backend, persisted: map<string, Value>)
      ensures this.backend == backend && entries == persisted
    {
      this.backend := backend;
      entries := persisted;
    }
  }

  /** `Sifbase.NAMESPACED_TABLES`: path -> namespace -> handle. A namespace that was not
      given is `None`, which the source's Map keys as `undefined`. */
  class TableRegistry {
    var tables: map<string, map<Option<string>, KeyvStore>>

    constructor ()
      ensures tables == map[]
    {
      tables := map[];
    }
  }

  /** A handle for (path, namespace) is registered (the test at src/index.js:101). */
  predicate Registered(tables: map<string, map<Option<string>, KeyvStore>>,
                       path: Option<string>, namespace: Option<string>)
  {
    TruthyText(path) && path.value in tables && namespace in tables[path.value]
  }

  /** Adds the handle for (path, namespace), creating the path's inner map on first use. */
  function Register(tables: map<string, map<Option<string>, KeyvStore>>,
                    path: string, namespace: Option<string>, handle: KeyvStore)
    : (r: map<string, map<Option<string>, KeyvStore>>)
    ensures path in r && namespace in r[path] && r[path][namespace] == handle
    ensures forall p :: p in tables && p != path ==> p in r && r[p] == tables[p]
    ensures path in tables ==>
      forall n :: n in tables[path] && n != namespace ==> n in r[path] && r[path][n] == tables[path][n]
    ensures r.Keys == tables.Keys + {path}
  {
    var inner: map<Option<string>, KeyvStore> := if path in tables then tables[path] else map[];
    tables[path := inner[namespace := handle]]
  }

  /** `keyv.get(key) ?? d`: the stored value, or `d` for a missing, `null` or `undefined` one. */
  function Read(entries: map<string, Value>, key: string, d: Value): (v: Value)
    ensures key !in entries ==> v == d
    ensures key in entries && (entries[key].Undefined? || entries[key].Null?) ==> v == d
    ensures key in entries && !entries[key].Undefined? && !entries[key].Null? ==> v == entries[key]
  {
    Coalesce(if key in entries then entries[key] else Undefined, d)
  }

  /** The result of `Sifbase#table(namespace)`. */
  datatype TableResult =
    | CurrentNamespace(name: Option<string>)
    | Opened(table: Sifbase)
    | Refused(error: Error)

  class Sifbase {
    const path: Option<string>
    const namespace: Option<string>
    const keyv: KeyvStore
    /** The last value read or written through this instance, per key. */
    var cache: map<string, Value>

    /** `new Sifbase(path, namespace, keyv)`. A registered handle for (path, namespace) is
        reused; otherwise the given handle or a new one is used, and registered when the
        path is truthy. */
    constructor (path: Option<string>, namespace: Option<string>, given: KeyvStore?,
                 persisted: map<string, Value>, registry: TableRegistry)
      modifies registry
      ensures this.path == path && this.namespace == namespace && cache == map[]
      ensures Registered(old(registry.tables), path, namespace) ==>
        keyv == old(registry.tables)[path.value][namespace] && registry.tables == old(registry.tables)
      ensures !Registered(old(registry.tables), path, namespace) && given != null ==> keyv == given
      ensures !Registered(old(registry.tables), path, namespace) && given == null ==>
        fresh(keyv) && keyv.backend == BackendFor(path) && keyv.entries == persisted
      ensures !Registered(old(registry.tables), path, namespace) ==>
        registry.tables == if TruthyText(path) then Register(old(registry.tables), path.value, namespace, keyv)
                           else old(registry.tables)
      ensures TruthyText(path) ==>
        Registered(registry.tables, path, namespace) && registry.tables[path.value][namespace] == keyv
    {
      this.path := path;
      this.namespace := namespace;
      cache := map[];
      if Registered(registry.tables, path, namespace) {
        keyv := registry.tables[path.value][namespace];
      } else if given != null {
        keyv := given;
      } else {
        keyv := new KeyvStore(BackendFor(path), persisted);
      }
      new;
      if !Registered(registry.tables, path, namespace) && TruthyText(path) {
        registry.tables := Register(registry.tables, path.value, namespace, keyv);
      }
    }

    /** `Sifbase.isSifStore(path)`: a string ending in ".sifdb". */
    static function IsSifStore(p: Option<string>): (r: bool)
      ensures r <==> p.Some? && exists stem :: p.value == stem + ".sifdb"
    {
      if p.Some? then EndsWithConcat(p.value, ".sifdb"); EndsWith(p.value, ".sifdb") else false
    }

    /** `Sifbase.isJsonStore(path)`: a string ending in ".json". */
    static function IsJsonStore(p: Option<string>): (r: bool)
      ensures r <==> p.Some? && exists stem :: p.value == stem + ".json"
    {
      if p.Some? then EndsWithConcat(p.value, ".json"); EndsWith(p.value, ".json") else false
    }

    /** The store a new handle for `path` is opened with (src/index.js:106-115). */
    static function BackendFor(p: Option<string>): (b: Backend)
      ensures b.FileStore? <==> IsJsonStore(p) || IsSifStore(p)
      ensures b.FileStore? ==> b.file == p.value
      ensures b.Adapter? ==> TruthyText(p) && b.uri == p.value
      ensures b.InMemory? <==> !TruthyText(p)
    {
      if IsJsonStore(p) || IsSifStore(p) then FileStore(p.value)
      else if TruthyText(p) then Adapter(p.value)
      else InMemory
    }

    /** `Sifbase.__dirname(import.meta)`: the characters of `url` from index 7 up to its
        last "/", with every "%20" decoded to a space and a leading "/C:" dropped. */
    static function DirnameOfUrl(url: string): (dir: string)
      ensures forall k :: !OccursAt(dir, "%20", k)
      ensures !StartsWith(DecodeSpaces(Substring(url, 7, LastIndexOf(url, '/'))), "/C:") ==>
        dir == DecodeSpaces(Substring(url, 7, LastIndexOf(url, '/')))
      ensures var p := DecodeSpaces(Substring(url, 7, LastIndexOf(url, '/')));
        StartsWith(p, "/C:") ==> |p| >= 3 && dir == p[3..]
    {
      var path := DecodeSpaces(Substring(url, 7, LastIndexOf(url, '/')));
      DecodeSpacesComplete(Substring(url, 7, LastIndexOf(url, '/')));
      if StartsWith(path, "/C:") then
        DropDriveLetterClean(path);
        Join(Split(path, "C:")[1..], "C:")
      else path
    }

    /** `Sifbase#table(namespace)`: with no namespace, the current one; on an instance that
        already has a namespace, an error; otherwise a new instance for that namespace. */
    method Table(ns: Option<string>, persisted: map<string, Value>, registry: TableRegistry)
      returns (r: TableResult)
      modifies registry
      ensures !TruthyText(ns) ==> r == CurrentNamespace(namespace) && registry.tables == old(registry.tables)
      ensures TruthyText(ns) && TruthyText(namespace) ==>
        r == Refused(NamespaceAlreadySet) && registry.tables == old(registry.tables)
      ensures TruthyText(ns) && !TruthyText(namespace) ==>
        r.Opened? && r.table.path == path && r.table.namespace == ns && r.table.cache == map[]
      ensures TruthyText(ns) && !TruthyText(namespace) && Registered(old(registry.tables), path, ns) ==>
        r.table.keyv == old(registry.tables)[path.value][ns] && registry.tables == old(registry.tables)
      ensures TruthyText(ns) && !TruthyText(namespace) && !Registered(old(registry.tables), path, ns) ==>
        && fresh(r.table.keyv) && r.table.keyv.entries == persisted && r.table.keyv.backend == BackendFor(path)
        && registry.tables == if TruthyText(path) then Register(old(registry.tables), path.value, ns, r.table.keyv)
                              else old(registry.tables)
    {
      if !TruthyText(ns) {
        return CurrentNamespace(namespace);
      }
      if TruthyText(namespace) {
        return Refused(NamespaceAlreadySet);
      }
      var t := new Sifbase(path, ns, null, persisted, registry);
      r := Opened(t);
    }

    /** `get(key, defaultValue)`: reads the table, falls back on the default for a missing,
        `null` or `undefined` value, and caches what it returns. */
    method Get(key: string, d: Value) returns (v: Value)
      modifies this
      ensures v == Read(keyv.entries, key, d)
      ensures cache == old(cache)[key := v] && key in cache && cache[key] == v
    {
      v := Read(keyv.entries, key, d);
      cache := cache[key := v];
    }

    /** `has(key)`: whether `get(key)` finds something other than `undefined`. */
    method Has(key: string) returns (b: bool)
      modifies this
      ensures b <==> key in keyv.entries && keyv.entries[key] != Undefined && keyv.entries[key] != Null
      ensures cache == old(cache)[key := Read(keyv.entries, key, Undefined)]
    {
      var v := Get(key, Undefined);
      b := v != Undefined;
    }

    /** `set(key, value)`: caches the value and writes it to the table. */
    method Set(key: string, v: Value)
      modifies this, keyv
      ensures cache == old(cache)[key := v]
      ensures keyv.entries == old(keyv.entries)[key := v]
    {
      cache := cache[key := v];
      keyv.entries := keyv.entries[key := v];
    }

    /** `delete(key)`: drops the key from the cache and the table; reports whether the
        table held it. */
    method Delete(key: string) returns (existed: bool)
      modifies this, keyv
      ensures existed <==> key in old(keyv.entries)
      ensures cache == old(cache) - {key} && key !in cache
      ensures keyv.entries == old(keyv.entries) - {key} && key !in keyv.entries
    {
      cache := cache - {key};
      existed := key in keyv.entries;
      keyv.entries := keyv.entries - {key};
    }

    /** `clear()`: empties the cache and the whole table. */
    method Clear()
      modifies this, keyv
      ensures cache == map[] && keyv.entries == map[]
    {
      cache := map[];
      keyv.entries := map[];
    }
  }

  /** The directory of a file URL: for `"file://" + dir + "/" + file` with no "/" in
      `file`, `__dirname` gives `dir` with "%20" decoded, minus a leading "/C:". */
  lemma DirnameOfFileUrl(dir: string, file: string)
    requires '/' !in file
    ensures var d := DecodeSpaces(dir);
      Sifbase.DirnameOfUrl("file://" + dir + "/" + file) == if StartsWith(d, "/C:") then d[3..] else d
  {
    var url := "file://" + dir + "/" + file;
    var cut := 7 + |dir|;
    assert url[cut] == '/';
    assert forall k :: cut < k < |url| ==> url[k] == file[k - cut - 1];
    assert LastIndexOf(url, '/') == cut;
    assert url[7..cut] == dir;
    var d := DecodeSpaces(dir);
    if StartsWith(d, "/C:") {
      DropDriveLetter(d);
    }
  }
}
