/**
 * The configuration the server consumes (config.go) and what loadConfig
 * makes of it. Reading the file and decoding its JSON are outside the model:
 * the loader starts from the decoded `Config`. Compiling a regular expression
 * is an opaque test `compiles` on its text.
 */
module Config {
  import opened Wrappers

  datatype User = User(username: string, password: string)

  /** An archive: its name, its storage directory and who may add to it. */
  datatype Archive = Archive(name: string, storage: string, users: seq<User>)

  /** An archiver script and the regular expression that selects URLs for it. */
  datatype Archiver = Archiver(name: string, script: string, regexp: string)

  datatype Config = Config(port: string, database: string, archivers: seq<Archiver>, archives: seq<Archive>)

  /** What `Config{}` holds before anything is decoded into it. */
  const EmptyConfig := Config("", "", [], [])

  /** The two errors loadConfig can return. */
  datatype ConfigError = DuplicateArchive(name: string) | BadRegexp(regexp: string)

  function Names(archives: seq<Archive>): set<string> {
    set i | 0 <= i < |archives| :: archives[i].name
  }

  predicate DistinctNames(archives: seq<Archive>) {
    forall i, j :: 0 <= i < j < |archives| ==> archives[i].name != archives[j].name
  }

  /** Index of the first archive whose name an earlier archive already used. */
  function FirstDuplicate(archives: seq<Archive>): (k: Option<nat>)
    ensures k.None? <==> DistinctNames(archives)
    ensures k.Some? ==>
      k.value < |archives| && DistinctNames(archives[..k.value]) && archives[k.value].name in Names(archives[..k.value])
  {
    if |archives| == 0 then None
    else
      var init := archives[..|archives| - 1];
      var last := archives[|archives| - 1];
      match FirstDuplicate(init)
      case Some(k) =>
        assert archives[..k] == init[..k];
        Some(k)
      case None =>
        if last.name in Names(init) then
          assert archives[..|archives| - 1] == init;
          Some(|archives| - 1)
        else
          assert forall i :: 0 <= i < |init| ==> archives[i] == init[i];
          None
  }

  /** The map the archives loop fills, one `archives[a.Name] = a` at a time. */
  function ByName(archives: seq<Archive>): (m: map<string, Archive>)
    ensures m.Keys == Names(archives)
    ensures forall n :: n in m ==> m[n].name == n
  {
    if |archives| == 0 then map[]
    else
      var init := archives[..|archives| - 1];
      var last := archives[|archives| - 1];
      assert Names(archives) == Names(init) + {last.name} by {
        assert forall i :: 0 <= i < |init| ==> archives[i] == init[i];
      }
      ByName(init)[last.name := last]
  }

  /** Index of the first archiver whose regular expression does not compile. */
  function FirstBadRegexp(archivers: seq<Archiver>, compiles: string -> bool): (k: Option<nat>)
    ensures k.Some? ==> k.value < |archivers| && !compiles(archivers[k.value].regexp)
    ensures k.Some? ==> forall i :: 0 <= i < k.value ==> compiles(archivers[i].regexp)
    ensures k.None? <==> forall i :: 0 <= i < |archivers| ==> compiles(archivers[i].regexp)
  {
    if |archivers| == 0 then None
    else if !compiles(archivers[0].regexp) then Some(0)
    else match FirstBadRegexp(archivers[1..], compiles)
      case None => None
      case Some(k) => Some(k + 1)
  }

  /** The application fields loadConfig leaves behind, and its result. */
  datatype Loaded = Loaded(archives: map<string, Archive>, archivers: seq<Archiver>, err: Option<ConfigError>)

  /**
   * loadConfig (config.go:38-80) on a decoded configuration, fields reset
   * first: the archives loop stops at the first repeated name, the archivers
   * loop at the first regular expression that does not compile, and what was
   * stored before the stop stays stored.
   */
  function Load(cfg: Config, compiles: string -> bool): (l: Loaded)
    ensures l.err.None? <==>
      DistinctNames(cfg.archives) && forall i :: 0 <= i < |cfg.archivers| ==> compiles(cfg.archivers[i].regexp)
    ensures l.err.Some? && l.err.value.DuplicateArchive? ==> l.archivers == [] && !DistinctNames(cfg.archives)
    ensures l.err.Some? && l.err.value.BadRegexp? ==> DistinctNames(cfg.archives) && l.archives == ByName(cfg.archives)
    ensures l.err.None? ==> l.archives == ByName(cfg.archives) && l.archivers == cfg.archivers
  {
    match FirstDuplicate(cfg.archives)
    case Some(k) => Loaded(ByName(cfg.archives[..k]), [], Some(DuplicateArchive(cfg.archives[k].name)))
    case None =>
      match FirstBadRegexp(cfg.archivers, compiles)
      case Some(j) => Loaded(ByName(cfg.archives), cfg.archivers[..j], Some(BadRegexp(cfg.archivers[j].regexp)))
      case None =>
        assert cfg.archivers[..|cfg.archivers|] == cfg.archivers;
        Loaded(ByName(cfg.archives), cfg.archivers, None)
  }

  /** With distinct names, the map keeps every configured archive under its own name. */
  lemma {:induction false} ByNameKeepsEach(archives: seq<Archive>)
    requires DistinctNames(archives)
    ensures forall i :: 0 <= i < |archives| ==> ByName(archives)[archives[i].name] == archives[i]
  {
    if |archives| > 0 {
      var init := archives[..|archives| - 1];
      var last := archives[|archives| - 1];
      DistinctInit(archives);
      ByNameKeepsEach(init);
      forall i | 0 <= i < |archives|
        ensures ByName(archives)[archives[i].name] == archives[i]
      {
        if i < |init| {
          assert archives[i] == init[i];
        }
      }
    }
  }

  /** With distinct names, the map has one entry per archive. */
  lemma {:induction false} ByNameSize(archives: seq<Archive>)
    requires DistinctNames(archives)
    ensures |ByName(archives)| == |archives|
  {
    if |archives| > 0 {
      var init := archives[..|archives| - 1];
      var last := archives[|archives| - 1];
      DistinctInit(archives);
      ByNameSize(init);
      var m := ByName(init);
      assert last.name !in m by {
        forall i | 0 <= i < |init|
          ensures init[i].name != last.name
        {
          assert init[i] == archives[i];
        }
      }
      assert |m[last.name := last]| == |m| + 1;
    }
  }

  /** Dropping the last archive keeps the names distinct. */
  lemma DistinctInit(archives: seq<Archive>)
    requires |archives| > 0 && DistinctNames(archives)
    ensures DistinctNames(archives[..|archives| - 1])
  {
    var init := archives[..|archives| - 1];
    forall i, j | 0 <= i < j < |init|
      ensures init[i].name != init[j].name
    {
      assert init[i] == archives[i] && init[j] == archives[j];
    }
  }

  /**
   * A successful load holds exactly one entry per configured archive, keyed
   * by its name, and the archivers in configuration order.
   */
  lemma LoadedConfigIsFaithful(cfg: Config, compiles: string -> bool)
    requires Load(cfg, compiles).err.None?
    ensures |Load(cfg, compiles).archives| == |cfg.archives|
    ensures forall i :: 0 <= i < |cfg.archives| ==>
      Load(cfg, compiles).archives[cfg.archives[i].name] == cfg.archives[i]
    ensures Load(cfg, compiles).archivers == cfg.archivers
  {
    ByNameKeepsEach(cfg.archives);
    ByNameSize(cfg.archives);
  }

  /** The first repeated name is found where the names stop being distinct. */
  lemma {:induction false} FirstDuplicateAt(archives: seq<Archive>, k: nat)
    requires k < |archives| && DistinctNames(archives[..k]) && archives[k].name in Names(archives[..k])
    ensures FirstDuplicate(archives) == Some(k)
    decreases |archives|
  {
    var init := archives[..|archives| - 1];
    if k < |archives| - 1 {
      assert init[..k] == archives[..k];
      FirstDuplicateAt(init, k);
    } else {
      assert init == archives[..k];
    }
  }

  /** A name not used so far keeps the prefix's names distinct. */
  lemma DistinctExtended(archives: seq<Archive>, k: nat)
    requires k < |archives| && DistinctNames(archives[..k]) && archives[k].name !in Names(archives[..k])
    ensures DistinctNames(archives[..k + 1])
  {
    var prefix := archives[..k + 1];
    forall i, j | 0 <= i < j < |prefix|
      ensures prefix[i].name != prefix[j].name
    {
      assert prefix[i] == archives[..k][i] || i == k;
      if j < k {
        assert prefix[j] == archives[..k][j];
      } else {
        assert prefix[j] == archives[k];
        assert archives[..k][i].name in Names(archives[..k]);
      }
    }
  }
}
