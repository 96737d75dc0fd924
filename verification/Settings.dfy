/**
 * The settings a running database can have, and why the rules they obey make every accepted
 * write succeed and every index record readable at the next start.
 */
module Settings {
  import opened Base
  import opened Bytes
  import opened IndexLog
  import opened Storage
  import opened ShardEngine
  import opened Compaction
  import Decimal
  import Durability
  import Tokenizer

  /** What a reload may not change: paths, SSL, ports and connection limits. */
  datatype Fixed = Fixed(paths: seq<string>, useSSL: bool, dbPort: int, webPort: int, maxConnections: nat,
                         authTimeout: nat, idleTimeout: nat)

  datatype Settings = Settings(
    segSize: U64, maxKeySize: nat, maxValueSize: nat, cacheSize: nat, compactingInterval: nat,
    flushInterval: nat, archiveCreationDelay: nat, jsonOnly: bool, readOnly: bool, isDebug: bool,
    autoArchiveSaving: bool, networkValidation: string, fixed: Fixed)

  /** config.yaml: what it gives, and whether anything else in it makes loading throw. */
  datatype Config = Config(
    segSize: Option<nat>, maxKeySize: Option<nat>, maxValueSize: Option<nat>, cacheSize: Option<nat>,
    compactingInterval: Option<nat>, flushInterval: Option<nat>, archiveCreationDelay: Option<nat>,
    jsonOnly: Option<bool>, readOnly: Option<bool>, isDebug: Option<bool>, autoArchiveSaving: Option<bool>,
    networkValidation: Option<string>, useSSL: Option<bool>, dbPort: Option<int>, webPort: Option<int>,
    maxConnections: Option<nat>, authTimeout: Option<nat>, idleTimeout: Option<nat>, paths: seq<string>, otherErrors: bool)

  /** `getOr`: the default when absent, an exception when the number does not fit its type. */
  function GetOr(value: Option<nat>, default: nat, range: nat): Option<nat> {
    if value.None? then Some(default) else if value.value < range then value else None
  }

  function Or<T>(value: Option<T>, default: T): T {
    if value.None? then default else value.value
  }

  predicate PortOk(port: int) {
    1 <= port <= 65535
  }

  function LoadFixed(c: Config): Option<Fixed> {
    var dbPort, webPort := Or(c.dbPort, 7321), Or(c.webPort, 1237);
    var connections := GetOr(c.maxConnections, 1024, POW32);
    var auth := GetOr(c.authTimeout, 10, POW32);
    var idle := GetOr(c.idleTimeout, 300, POW32);
    if !PortOk(dbPort) || !PortOk(webPort) || connections.None? || auth.None? || idle.None? then None
    else if auth.value == 0 || idle.value == 0 || connections.value == 0 || dbPort == webPort then None
    else Some(Fixed(c.paths, Or(c.useSSL, false), dbPort, webPort, connections.value, auth.value, idle.value))
  }

  function LoadConfig(c: Config): Option<Settings> {
    var fixed := LoadFixed(c);
    var segSize := GetOr(c.segSize, 128000, POW64);
    var maxKeySize := GetOr(c.maxKeySize, 64, POW32);
    var maxValueSize := GetOr(c.maxValueSize, 10000, POW32);
    var cacheSize := GetOr(c.cacheSize, 1000, POW32);
    var compacting := GetOr(c.compactingInterval, 3600, POW32);
    var flush := GetOr(c.flushInterval, 120, POW32);
    var archive := GetOr(c.archiveCreationDelay, 3600, POW32);
    if c.otherErrors || fixed.None?
       || segSize.None? || maxKeySize.None? || maxValueSize.None? || cacheSize.None?
       || compacting.None? || flush.None? || archive.None? then None
    else if maxValueSize.value >= segSize.value then None
    else
      var clamped := if maxKeySize.value > MAX_KEY_SIZE then MAX_KEY_SIZE else maxKeySize.value;
      var validation := Or(c.networkValidation, ".*");
      if flush.value == 0 || compacting.value == 0 || archive.value == 0 then None
      else Some(Settings(segSize.value, clamped, maxValueSize.value, cacheSize.value, compacting.value, flush.value,
                         archive.value, Or(c.jsonOnly, false), Or(c.readOnly, false), Or(c.isDebug, false),
                         Or(c.autoArchiveSaving, true), if validation == "" then ".*" else validation, fixed.value))
  }

  function Flag(text: string): Option<bool> {
    if text == "true" || text == "1" then Some(true)
    else if text == "false" || text == "0" then Some(false)
    else None
  }

  datatype Param =
    | SegSize | MaxKeySize | MaxValueSize | CacheSize | CompactingInterval | FlushInterval | ArchiveCreationDelay
    | JsonOnly | ReadOnly | IsDebug | AutoArchiveSaving | NetworkValidationStr

  /** The parameter a name stands for, whatever its case; None for useSSL and for unknown names. */
  function ParamOf(name: string): Option<Param> {
    var p := Tokenizer.Lower(name);
    if p == "segsize" then Some(SegSize) else if p == "maxkeysize" then Some(MaxKeySize)
    else if p == "maxvaluesize" then Some(MaxValueSize) else if p == "cachesize" then Some(CacheSize)
    else if p == "compactinginterval" then Some(CompactingInterval) else if p == "flushinterval" then Some(FlushInterval)
    else if p == "networkvalidationstr" then Some(NetworkValidationStr) else if p == "isdebug" then Some(IsDebug)
    else if p == "jsononly" then Some(JsonOnly) else if p == "readonly" then Some(ReadOnly)
    else if p == "archivecreationdelay" then Some(ArchiveCreationDelay)
    else if p == "autoarchivesaving" then Some(AutoArchiveSaving)
    else None
  }

  /** The settings after `scfg`; None for a refusal. `regexOk`: whether `std::regex` accepts the text. */
  function SetParam(s: Settings, p: Param, text: string, regexOk: bool): Option<Settings> {
    var n := Decimal.ParseUInt(text, if p.SegSize? then POW64 else POW32);
    match p
    case SegSize => if n.None? || n.value <= s.maxValueSize then None else Some(s.(segSize := n.value))
    case MaxKeySize => if n.None? || n.value > MAX_KEY_SIZE then None else Some(s.(maxKeySize := n.value))
    case MaxValueSize => if n.None? || n.value >= s.segSize then None else Some(s.(maxValueSize := n.value))
    case CacheSize => if n.None? then None else Some(s.(cacheSize := n.value))
    case CompactingInterval => if n.None? || n.value == 0 then None else Some(s.(compactingInterval := n.value))
    case FlushInterval => if n.None? || n.value == 0 then None else Some(s.(flushInterval := n.value))
    case ArchiveCreationDelay => if n.None? || n.value == 0 then None else Some(s.(archiveCreationDelay := n.value))
    case JsonOnly => var b := Flag(text); if b.None? then None else Some(s.(jsonOnly := b.value))
    case ReadOnly => var b := Flag(text); if b.None? then None else Some(s.(readOnly := b.value))
    case IsDebug => var b := Flag(text); if b.None? then None else Some(s.(isDebug := b.value))
    case AutoArchiveSaving => var b := Flag(text); if b.None? then None else Some(s.(autoArchiveSaving := b.value))
    case NetworkValidationStr => if regexOk then Some(s.(networkValidation := text)) else None
  }

  /** `scfg name text`. */
  function ScfgStep(s: Settings, name: string, text: string, regexOk: bool): Option<Settings> {
    var p := ParamOf(name);
    if p.None? then None else SetParam(s, p.value, text, regexOk)
  }

  function ReloadConfig(s: Settings, c: Config): Option<Settings> {
    var loaded := LoadConfig(c);
    if loaded.None? || loaded.value.fixed != s.fixed then None else loaded
  }

  /** What every reachable settings value obeys. */
  ghost predicate Legal(s: Settings) {
    && s.maxValueSize < s.segSize && s.maxKeySize <= MAX_KEY_SIZE && s.maxValueSize < POW32
    && s.flushInterval > 0 && s.compactingInterval > 0 && s.archiveCreationDelay > 0
    && s.fixed.dbPort != s.fixed.webPort
  }

  /** The part of the facade that owns the settings. */
  class Facade {
    var settings: Settings

    constructor (initial: Settings)
      requires Legal(initial)
      ensures settings == initial
    {
      settings := initial;
    }

    method SetConfig(name: string, text: string, regexOk: bool) returns (ok: bool)
      requires Legal(settings)
      modifies this
      ensures Legal(settings) && settings.fixed == old(settings).fixed
      ensures ok <==> ScfgStep(old(settings), name, text, regexOk).Some?
      ensures settings == if ok then ScfgStep(old(settings), name, text, regexOk).value else old(settings)
    {
      hide ParamOf;
      var p := ParamOf(name);
      if p.None? {
        return false;
      }
      ScfgIsLegal(settings, p.value, text, regexOk);
      var next := SetParam(settings, p.value, text, regexOk);
      ok := next.Some?;
      if ok {
        settings := next.value;
      }
    }

    /** A failed reload keeps the old settings. */
    method Reload(c: Config) returns (ok: bool)
      requires Legal(settings)
      modifies this
      ensures Legal(settings) && settings.fixed == old(settings).fixed
      ensures ok <==> LoadConfig(c).Some? && LoadConfig(c).value.fixed == old(settings).fixed
      ensures !ok ==> settings == old(settings)
      ensures ok ==> Some(settings) == LoadConfig(c)
    {
      var next := ReloadConfig(settings, c);
      ok := next.Some?;
      if ok {
        settings := next.value;
      }
    }
  }

  // ------------------------------------------- settings, field by field

  /** A number within the bounds, as text. */
  ghost predicate Gives(text: string, lo: nat, hi: nat, n: nat) {
    text != "" && Decimal.AllDigits(text) && Decimal.ValueOf(text) == n && lo <= n <= hi
  }

  lemma NumberGiven(text: string, range: nat, n: nat)
    ensures Decimal.ParseUInt(text, range) == Some(n) <==> n < range && Gives(text, 0, n, n)
  {
    if text != "" && Decimal.AllDigits(text) {
      Decimal.PrefixAll(text, "");
      assert text + "" == text;
    }
  }

  /** What the text of a flag means. */
  ghost predicate Means(text: string, flag: bool) {
    if flag then text == "true" || text == "1" else text == "false" || text == "0"
  }

  /** Exactly which text `scfg` accepts for a parameter, and what it sets: one field, and no other. */
  ghost predicate SetsField(s: Settings, p: Param, text: string, regexOk: bool, s': Settings) {
    match p
    case SegSize => exists n: U64 :: Gives(text, s.maxValueSize + 1, 0xFFFF_FFFF_FFFF_FFFF, n) && s' == s.(segSize := n)
    case MaxKeySize => exists n: nat :: Gives(text, 0, 256, n) && s' == s.(maxKeySize := n)
    case MaxValueSize => exists n: nat :: Gives(text, 0, 0xFFFF_FFFF, n) && n < s.segSize && s' == s.(maxValueSize := n)
    case CacheSize => exists n: nat :: Gives(text, 0, 0xFFFF_FFFF, n) && s' == s.(cacheSize := n)
    case CompactingInterval => exists n: nat :: Gives(text, 1, 0xFFFF_FFFF, n) && s' == s.(compactingInterval := n)
    case FlushInterval => exists n: nat :: Gives(text, 1, 0xFFFF_FFFF, n) && s' == s.(flushInterval := n)
    case ArchiveCreationDelay => exists n: nat :: Gives(text, 1, 0xFFFF_FFFF, n) && s' == s.(archiveCreationDelay := n)
    case JsonOnly => exists b :: Means(text, b) && s' == s.(jsonOnly := b)
    case ReadOnly => exists b :: Means(text, b) && s' == s.(readOnly := b)
    case IsDebug => exists b :: Means(text, b) && s' == s.(isDebug := b)
    case AutoArchiveSaving => exists b :: Means(text, b) && s' == s.(autoArchiveSaving := b)
    case NetworkValidationStr => regexOk && s' == s.(networkValidation := text)
  }

  predicate IsFlag(p: Param) {
    p.JsonOnly? || p.ReadOnly? || p.IsDebug? || p.AutoArchiveSaving?
  }

  lemma FieldSet(s: Settings, p: Param, text: string, regexOk: bool, s': Settings)
    ensures SetParam(s, p, text, regexOk) == Some(s') <==> SetsField(s, p, text, regexOk, s')
  {
    hide SetParam, SetsField;
    if IsFlag(p) {
      FlagSet(s, p, text, regexOk, s');
    } else if p.NetworkValidationStr? {
      TextSet(s, text, regexOk, s');
    } else {
      NumberSet(s, p, text, regexOk, s');
    }
  }

  lemma TextSet(s: Settings, text: string, regexOk: bool, s': Settings)
    ensures SetParam(s, NetworkValidationStr, text, regexOk) == Some(s') <==> SetsField(s, NetworkValidationStr, text, regexOk, s')
  {
    hide Decimal.ParseUInt;
  }

  lemma FlagSet(s: Settings, p: Param, text: string, regexOk: bool, s': Settings)
    requires IsFlag(p)
    ensures SetParam(s, p, text, regexOk) == Some(s') <==> SetsField(s, p, text, regexOk, s')
  {
    forall b
      ensures Flag(text) == Some(b) <==> Means(text, b)
    {
    }
    hide Decimal.ParseUInt, Flag, Means;
  }

  lemma NumberSet(s: Settings, p: Param, text: string, regexOk: bool, s': Settings)
    requires !IsFlag(p) && !p.NetworkValidationStr?
    ensures SetParam(s, p, text, regexOk) == Some(s') <==> SetsField(s, p, text, regexOk, s')
  {
    var range := if p.SegSize? then POW64 else POW32;
    forall n: nat
      ensures Decimal.ParseUInt(text, range) == Some(n) <==> n < range && Gives(text, 0, n, n)
    {
      NumberGiven(text, range, n);
    }
    forall n: nat, lo: nat, hi: nat | Gives(text, lo, hi, n)
      ensures Gives(text, 0, n, n) && lo <= n <= hi
    {
    }
    hide Decimal.ParseUInt, Gives, Flag;
    var number := Decimal.ParseUInt(text, range);
    if number.Some? {
      assert Gives(text, 0, number.value, number.value);
      NumberWithin(text, number.value);
    }
  }

  lemma NumberWithin(text: string, n: nat)
    requires Gives(text, 0, n, n)
    ensures forall lo: nat, hi: nat :: Gives(text, lo, hi, n) <==> lo <= n <= hi
  {
  }

  lemma NamedBy(name: string, low: string)
    requires forall c :: c in low ==> 'a' <= c <= 'z'
    ensures Tokenizer.SameButCase(name, low) <==> Tokenizer.Lower(name) == low
    ensures Tokenizer.SameButCase(name, low) ==> ParamOf(name) == ParamOf(low)
  {
    Tokenizer.LowerIs(name, low);
    Tokenizer.LowerIs(low, low);
    hide Tokenizer.Lower;
  }

  lemma Names1(name: string)
    ensures ParamOf(name) == Some(SegSize) <==> Tokenizer.SameButCase(name, "segsize")
    ensures ParamOf(name) == Some(MaxKeySize) <==> Tokenizer.SameButCase(name, "maxkeysize")
  {
    hide Tokenizer.Lower, Tokenizer.SameButCase;
    NamedBy(name, "segsize");
    NamedBy(name, "maxkeysize");
  }

  lemma Names2(name: string)
    ensures ParamOf(name) == Some(MaxValueSize) <==> Tokenizer.SameButCase(name, "maxvaluesize")
    ensures ParamOf(name) == Some(CacheSize) <==> Tokenizer.SameButCase(name, "cachesize")
  {
    hide Tokenizer.Lower, Tokenizer.SameButCase;
    NamedBy(name, "maxvaluesize");
    NamedBy(name, "cachesize");
  }

  lemma Names3(name: string)
    ensures ParamOf(name) == Some(CompactingInterval) <==> Tokenizer.SameButCase(name, "compactinginterval")
    ensures ParamOf(name) == Some(FlushInterval) <==> Tokenizer.SameButCase(name, "flushinterval")
  {
    hide Tokenizer.Lower, Tokenizer.SameButCase;
    NamedBy(name, "compactinginterval");
    NamedBy(name, "flushinterval");
  }

  lemma Names4(name: string)
    ensures ParamOf(name) == Some(NetworkValidationStr) <==> Tokenizer.SameButCase(name, "networkvalidationstr")
    ensures ParamOf(name) == Some(IsDebug) <==> Tokenizer.SameButCase(name, "isdebug")
  {
    hide Tokenizer.Lower, Tokenizer.SameButCase;
    NamedBy(name, "networkvalidationstr");
    NamedBy(name, "isdebug");
  }

  lemma Names5(name: string)
    ensures ParamOf(name) == Some(JsonOnly) <==> Tokenizer.SameButCase(name, "jsononly")
    ensures ParamOf(name) == Some(ReadOnly) <==> Tokenizer.SameButCase(name, "readonly")
  {
    hide Tokenizer.Lower, Tokenizer.SameButCase;
    NamedBy(name, "jsononly");
    NamedBy(name, "readonly");
  }

  lemma Names6(name: string)
    ensures ParamOf(name) == Some(ArchiveCreationDelay) <==> Tokenizer.SameButCase(name, "archivecreationdelay")
    ensures ParamOf(name) == Some(AutoArchiveSaving) <==> Tokenizer.SameButCase(name, "autoarchivesaving")
  {
    hide Tokenizer.Lower, Tokenizer.SameButCase;
    NamedBy(name, "archivecreationdelay");
    NamedBy(name, "autoarchivesaving");
  }

  /** `scfg` succeeds with the settings `s'` if and only if its parameter, in any case, accepts the text, and sets its own field to it. */
  lemma ScfgExactly(s: Settings, name: string, text: string, regexOk: bool, s': Settings)
    ensures ScfgStep(s, name, text, regexOk) == Some(s') <==>
              || (Tokenizer.SameButCase(name, "segsize") && SetsField(s, SegSize, text, regexOk, s'))
              || (Tokenizer.SameButCase(name, "maxkeysize") && SetsField(s, MaxKeySize, text, regexOk, s'))
              || (Tokenizer.SameButCase(name, "maxvaluesize") && SetsField(s, MaxValueSize, text, regexOk, s'))
              || (Tokenizer.SameButCase(name, "cachesize") && SetsField(s, CacheSize, text, regexOk, s'))
              || (Tokenizer.SameButCase(name, "compactinginterval") && SetsField(s, CompactingInterval, text, regexOk, s'))
              || (Tokenizer.SameButCase(name, "flushinterval") && SetsField(s, FlushInterval, text, regexOk, s'))
              || (Tokenizer.SameButCase(name, "networkvalidationstr") && SetsField(s, NetworkValidationStr, text, regexOk, s'))
              || (Tokenizer.SameButCase(name, "isdebug") && SetsField(s, IsDebug, text, regexOk, s'))
              || (Tokenizer.SameButCase(name, "jsononly") && SetsField(s, JsonOnly, text, regexOk, s'))
              || (Tokenizer.SameButCase(name, "readonly") && SetsField(s, ReadOnly, text, regexOk, s'))
              || (Tokenizer.SameButCase(name, "archivecreationdelay") && SetsField(s, ArchiveCreationDelay, text, regexOk, s'))
              || (Tokenizer.SameButCase(name, "autoarchivesaving") && SetsField(s, AutoArchiveSaving, text, regexOk, s'))
  {
    hide ParamOf, SetParam, SetsField, Tokenizer.SameButCase;
    Names1(name);
    Names2(name);
    Names3(name);
    Names4(name);
    Names5(name);
    Names6(name);
    var p := ParamOf(name);
    if p.Some? {
      FieldSet(s, p.value, text, regexOk, s');
      match p.value
      case SegSize =>
      case MaxKeySize =>
      case MaxValueSize =>
      case CacheSize =>
      case CompactingInterval =>
      case FlushInterval =>
      case ArchiveCreationDelay =>
      case JsonOnly =>
      case ReadOnly =>
      case IsDebug =>
      case AutoArchiveSaving =>
      case NetworkValidationStr =>
    }
  }

  function Given<T>(value: Option<T>, default: T): T {
    if value.Some? then value.value else default
  }

  /** Exactly which configurations load. */
  ghost predicate Loads(c: Config) {
    var dbPort, webPort := Given(c.dbPort, 7321), Given(c.webPort, 1237);
    && !c.otherErrors && 1 <= dbPort <= 65535 && 1 <= webPort <= 65535 && dbPort != webPort
    && Given(c.segSize, 128000) <= 0xFFFF_FFFF_FFFF_FFFF && Given(c.maxKeySize, 64) <= 0xFFFF_FFFF
    && Given(c.maxValueSize, 10000) <= 0xFFFF_FFFF && Given(c.maxValueSize, 10000) < Given(c.segSize, 128000)
    && Given(c.cacheSize, 1000) <= 0xFFFF_FFFF
    && 1 <= Given(c.compactingInterval, 3600) <= 0xFFFF_FFFF && 1 <= Given(c.flushInterval, 120) <= 0xFFFF_FFFF
    && 1 <= Given(c.archiveCreationDelay, 3600) <= 0xFFFF_FFFF && 1 <= Given(c.maxConnections, 1024) <= 0xFFFF_FFFF
    && 1 <= Given(c.authTimeout, 10) <= 0xFFFF_FFFF && 1 <= Given(c.idleTimeout, 300) <= 0xFFFF_FFFF
  }

  /** Each setting is the one given or its default; a MaxKeySize above 256 is cut down to it. */
  lemma LoadExactly(c: Config)
    ensures LoadConfig(c).Some? <==> Loads(c)
    ensures LoadConfig(c).Some? ==>
              var s := LoadConfig(c).value;
              && s.segSize == Given(c.segSize, 128000) && s.maxValueSize == Given(c.maxValueSize, 10000)
              && s.maxKeySize == (if Given(c.maxKeySize, 64) > 256 then 256 else Given(c.maxKeySize, 64))
              && s.cacheSize == Given(c.cacheSize, 1000) && s.compactingInterval == Given(c.compactingInterval, 3600)
              && s.flushInterval == Given(c.flushInterval, 120) && s.archiveCreationDelay == Given(c.archiveCreationDelay, 3600)
              && s.jsonOnly == Given(c.jsonOnly, false) && s.readOnly == Given(c.readOnly, false)
              && s.isDebug == Given(c.isDebug, false) && s.autoArchiveSaving == Given(c.autoArchiveSaving, true)
              && s.networkValidation == (if Given(c.networkValidation, ".*") == "" then ".*" else Given(c.networkValidation, ".*"))
              && s.fixed == Fixed(c.paths, Given(c.useSSL, false), Given(c.dbPort, 7321), Given(c.webPort, 1237),
                                  Given(c.maxConnections, 1024), Given(c.authTimeout, 10), Given(c.idleTimeout, 300))
  {
    FixedExactly(c);
    hide LoadFixed;
  }

  lemma FixedExactly(c: Config)
    ensures var dbPort, webPort := Given(c.dbPort, 7321), Given(c.webPort, 1237);
            LoadFixed(c) ==
              if 1 <= dbPort <= 65535 && 1 <= webPort <= 65535 && dbPort != webPort
                 && 1 <= Given(c.maxConnections, 1024) <= 0xFFFF_FFFF && 1 <= Given(c.authTimeout, 10) <= 0xFFFF_FFFF
                 && 1 <= Given(c.idleTimeout, 300) <= 0xFFFF_FFFF
              then Some(Fixed(c.paths, Given(c.useSSL, false), dbPort, webPort, Given(c.maxConnections, 1024),
                              Given(c.authTimeout, 10), Given(c.idleTimeout, 300)))
              else None
  {
  }

  // ------------------------------------------------------------- runs

  datatype State = State(settings: Settings, engine: Engine)

  datatype Op =
    | Scfg(name: string, text: string, regexOk: bool)
    | Reload(c: Config)
    | Set(k: Key, v: Value, json: bool)
    | Del(k: Key)
    | SetBy(keys: seq<Key>, v: Value, json: bool)
    | DelBy(keys: seq<Key>)
    | Compaction(order: seq<Key>)

  /** Pattern commands act on stored keys; the compactor walks the table in some order. */
  ghost predicate Enabled(s: State, op: Op) {
    match op
    case SetBy(keys, _, _) => forall k :: k in keys ==> k in TableOf(s.engine)
    case DelBy(keys) => Distinct(keys) && forall k :: k in keys ==> k in TableOf(s.engine)
    case Compaction(order) => Enumerates(order, TableOf(s.engine).Keys)
    case _ => true
  }

  ghost predicate Distinct(keys: seq<Key>) {
    forall i, j :: 0 <= i < j < |keys| ==> keys[i] != keys[j]
  }

  /** `json` says whether the value is valid JSON. */
  predicate ValueOk(s: Settings, v: Value, json: bool) {
    v != "" && |v| <= s.maxValueSize && (s.jsonOnly ==> json)
  }

  predicate KeyOk(s: Settings, k: Key) {
    |k| <= s.maxKeySize
  }

  ghost function Do(s: State, op: Op): State
    requires Enabled(s, op)
  {
    match op
    case Scfg(name, text, regexOk) => var n := ScfgStep(s.settings, name, text, regexOk); if n.None? then s else s.(settings := n.value)
    case Reload(c) => var n := ReloadConfig(s.settings, c); if n.None? then s else s.(settings := n.value)
    case Set(k, v, json) =>
      if s.settings.readOnly || !KeyOk(s.settings, k) || !ValueOk(s.settings, v, json) then s
      else s.(engine := SetStep(s.engine, k, v, s.settings.segSize).0)
    case Del(k) => if s.settings.readOnly || !KeyOk(s.settings, k) then s else s.(engine := DelStep(s.engine, k).0)
    case SetBy(keys, v, json) =>
      if s.settings.readOnly || !ValueOk(s.settings, v, json) then s
      else s.(engine := SetAll(s.engine, keys, v, s.settings.segSize).0)
    case DelBy(keys) => if s.settings.readOnly then s else s.(engine := DelAll(s.engine, keys).0)
    case Compaction(order) => s.(engine := Compact(s.engine, order, s.settings.segSize))
  }

  /** The part of a record's machine widths that the settings take care of. */
  predicate RecordOk(r: Record) {
    |r.key| <= MAX_KEY_SIZE && r.loc.offset < POW64 && 0 < r.loc.size < POW32
  }

  ghost predicate RecordsOk(log: seq<Record>) {
    forall r :: r in log ==> RecordOk(r)
  }

  ghost predicate Inv(s: State) {
    Legal(s.settings) && Sound(s.engine) && RecordsOk(s.engine.log)
  }

  // ------------------------------------------------- what every step keeps

  lemma LoadIsLegal(c: Config)
    ensures LoadConfig(c).Some? ==> Legal(LoadConfig(c).value)
  {
  }

  lemma AppendPlace(st: Store, v: string, segSize: U64)
    ensures var loc := AppendStep(st, v, segSize).1;
            loc.Some? ==> loc.value.offset + loc.value.size <= segSize && loc.value.size == |v|
  {
  }

  lemma SetRecord(e: Engine, k: Key, v: Value, segSize: U64)
    requires RecordsOk(e.log) && |k| <= MAX_KEY_SIZE && 0 < |v| < POW32
    ensures RecordsOk(SetStep(e, k, v, segSize).0.log)
  {
    AppendPlace(e.store, v, segSize);
  }

  lemma TableRecord(log: seq<Record>, k: Key)
    requires RecordsOk(log) && k in Replay(log)
    ensures RecordOk(Record(k, Replay(log)[k], false)) && RecordOk(Record(k, Replay(log)[k], true))
  {
    ReplaySource(log, k);
  }

  lemma DelRecord(e: Engine, k: Key)
    requires RecordsOk(e.log)
    ensures RecordsOk(DelStep(e, k).0.log)
  {
    if k in TableOf(e) {
      TableRecord(e.log, k);
    }
  }

  lemma {:induction false} SetAllRecords(e: Engine, keys: seq<Key>, v: Value, segSize: U64)
    requires RecordsOk(e.log) && 0 < |v| < POW32
    requires forall k :: k in keys ==> |k| <= MAX_KEY_SIZE
    ensures RecordsOk(SetAll(e, keys, v, segSize).0.log)
  {
    if keys != [] {
      var front := keys[..|keys| - 1];
      SetAllRecords(e, front, v, segSize);
      SetRecord(SetAll(e, front, v, segSize).0, keys[|keys| - 1], v, segSize);
    }
  }

  lemma {:induction false} DelAllRecords(e: Engine, keys: seq<Key>)
    requires RecordsOk(e.log)
    ensures RecordsOk(DelAll(e, keys).0.log)
  {
    if keys != [] {
      var front := keys[..|keys| - 1];
      DelAllRecords(e, front);
      DelRecord(DelAll(e, front).0, keys[|keys| - 1]);
    }
  }

  lemma {:induction false} RelocateRecords(e: Engine, entries: seq<Record>, n: nat, segSize: U64)
    requires n <= |entries| && RecordsOk(e.log) && RecordsOk(entries)
    ensures RecordsOk(Relocate(e, entries, n, segSize).engine.log)
  {
    if n > 0 {
      RelocateRecords(e, entries, n - 1, segSize);
      RelocateOneRecord(Relocate(e, entries, n - 1, segSize), entries, n - 1, e.store.latest, segSize);
    }
  }

  lemma RelocateOneRecord(p: Pass, entries: seq<Record>, i: nat, current: nat, segSize: U64)
    requires i < |entries| == |p.entries| && RecordsOk(p.engine.log) && RecordsOk(entries)
    ensures RecordsOk(RelocateOne(p, entries, i, current, segSize).engine.log)
  {
    hide Kept, AppendStep;
    var value := ReadAt(p.engine.store.segs, entries[i].loc);
    assert RecordOk(entries[i]) && |value| <= entries[i].loc.size;
    AppendPlace(p.engine.store, value, segSize);
  }

  lemma CompactRecords(e: Engine, order: seq<Key>, segSize: U64)
    requires RecordsOk(e.log) && Enumerates(order, TableOf(e).Keys)
    ensures RecordsOk(Compact(e, order, segSize).log)
  {
    var entries := Entries(TableOf(e), order);
    forall r | r in entries ensures RecordOk(r) {
      TableRecord(e.log, r.key);
    }
    RelocateRecords(e.(log := entries), entries, |entries|, segSize);
  }

  lemma DoKeepsInv(s: State, op: Op)
    requires Inv(s) && Enabled(s, op)
    ensures Inv(Do(s, op))
  {
    hide Legal, Sound, View, SetStep, DelStep, SetAll, DelAll, Compact;
    LegalBounds(s.settings);
    match op
    case Scfg(name, text, regexOk) =>
      if ParamOf(name).Some? {
        ScfgIsLegal(s.settings, ParamOf(name).value, text, regexOk);
      }
    case Reload(c) => LoadIsLegal(c);
    case Set(k, v, json) =>
      if ValueOk(s.settings, v, json) && KeyOk(s.settings, k) {
        SetSpec(s.engine, k, v, s.settings.segSize);
        SetRecord(s.engine, k, v, s.settings.segSize);
      }
    case Del(k) =>
      DelSpec(s.engine, k);
      DelRecord(s.engine, k);
    case SetBy(keys, v, json) =>
      if ValueOk(s.settings, v, json) {
        forall k | k in keys ensures |k| <= MAX_KEY_SIZE {
          TableRecord(s.engine.log, k);
        }
        SetAllSpec(s.engine, keys, v, s.settings.segSize);
        SetAllRecords(s.engine, keys, v, s.settings.segSize);
      }
    case DelBy(keys) =>
      ViewKeys(s.engine);
      DelAllSpec(s.engine, keys);
      DelAllRecords(s.engine, keys);
    case Compaction(order) =>
      CompactPreserves(s.engine, order, s.settings.segSize);
      CompactRecords(s.engine, order, s.settings.segSize);
  }

  lemma LegalBounds(s: Settings)
    requires Legal(s)
    ensures s.maxValueSize < s.segSize && s.maxValueSize < POW32 && s.maxKeySize <= MAX_KEY_SIZE
  {
  }

  lemma ScfgIsLegal(s: Settings, p: Param, text: string, regexOk: bool)
    requires Legal(s)
    ensures var n := SetParam(s, p, text, regexOk); n.Some? ==> Legal(n.value) && n.value.fixed == s.fixed
  {
  }

  /** What every command, accepted or refused by the settings, does to the stored map. */
  lemma {:induction false} DoesExactly(s: State, op: Op)
    requires Inv(s) && Enabled(s, op)
    ensures var x, m, m' := s.settings, View(s.engine), View(Do(s, op).engine);
            match op
            case Set(k, v, json) =>
              m' == if !x.readOnly && |k| <= x.maxKeySize && 1 <= |v| <= x.maxValueSize && (x.jsonOnly ==> json)
                       && !Refused(s.engine.store, v, x.segSize) then m[k := v] else m
            case Del(k) => m' == if !x.readOnly && |k| <= x.maxKeySize then m - {k} else m
            case SetBy(keys, v, json) =>
              m' == if !x.readOnly && 1 <= |v| <= x.maxValueSize && (x.jsonOnly ==> json)
                    then m + map k | k in Accepted(s.engine, keys, v, x.segSize) :: v else m
            case DelBy(keys) => m' == if !x.readOnly then m - (set k | k in keys) else m
            case _ => m' == m
  {
    hide Legal, Sound, View, SetStep, DelStep, SetAll, DelAll, Compact, Accepted, ScfgStep, ReloadConfig, Refused;
    match op
    case Set(k, v, json) =>
      if v != "" {
        SetSpec(s.engine, k, v, s.settings.segSize);
      }
    case Del(k) => DelSpec(s.engine, k);
    case SetBy(keys, v, json) =>
      if v != "" {
        SetAllSpec(s.engine, keys, v, s.settings.segSize);
      }
    case DelBy(keys) =>
      ViewKeys(s.engine);
      DelAllSpec(s.engine, keys);
    case Compaction(order) => CompactPreserves(s.engine, order, s.settings.segSize);
    case Scfg(_, _, _) =>
    case Reload(_) =>
  }

  /** A run: the states it goes through, from a legal start with an empty shard. */
  ghost predicate IsRun(states: seq<State>, ops: seq<Op>, c: Config) {
    && |states| == |ops| + 1
    && LoadConfig(c) == Some(states[0].settings) && states[0].engine == Engine([], Store(map[1 := ""], 1))
    && forall i :: 0 <= i < |ops| ==> Enabled(states[i], ops[i]) && states[i + 1] == Do(states[i], ops[i])
  }

  lemma {:induction false} RunInv(states: seq<State>, ops: seq<Op>, c: Config, i: nat)
    requires IsRun(states, ops, c) && i < |states|
    ensures Inv(states[i])
  {
    if i == 0 {
      LoadIsLegal(c);
    } else {
      RunInv(states, ops, c, i - 1);
      DoKeepsInv(states[i - 1], ops[i - 1]);
    }
  }

  /**
   * Along every run of commands, reconfigurations and compactions: the settings stay legal, and
   * as long as segment ids fit 32 bits the INDEX bytes are read back in full at the next start.
   */
  lemma {:induction false} RunLogLoads(states: seq<State>, ops: seq<Op>, c: Config, i: nat)
    requires IsRun(states, ops, c) && i < |states|
    requires forall r :: r in states[i].engine.log ==> r.loc.seg < POW32
    ensures var s := states[i];
            && s.settings.maxValueSize < s.settings.segSize && s.settings.maxKeySize <= MAX_KEY_SIZE
            && Durability.LogFits(s.engine.log)
            && IndexLog.Parse(SerializeAll(s.engine.log)) == s.engine.log
  {
    RunInv(states, ops, c, i);
    hide Sound, Do, IsRun, Enabled;
    Widths();
    assert forall r :: r in states[i].engine.log ==> RecordOk(r) && IndexLog.Fits(r);
    LoadWhole(states[i].engine.log);
  }

  /**
   * In every reachable state a `set` that passes the checks is stored if and only if its append
   * is not refused, which below the largest SegSize it never is. Then it opens at most one
   * segment and leaves a record that the loader accepts.
   */
  lemma AcceptedSetSucceeds(s: State, k: Key, v: Value, json: bool, rest: string)
    requires Inv(s) && !s.settings.readOnly && KeyOk(s.settings, k) && ValueOk(s.settings, v, json)
    requires s.engine.store.latest < POW32 - 1
    ensures var s' := Do(s, Set(k, v, json)); var n := |s.engine.log|;
            var refused := Refused(s.engine.store, v, s.settings.segSize);
            && (s.settings.segSize < MAX_U64 ==> !refused)
            && (refused ==> View(s'.engine) == View(s.engine) && s'.engine.log == s.engine.log)
            && (!refused ==>
                 && View(s'.engine) == View(s.engine)[k := v]
                 && s'.engine.store.latest <= s.engine.store.latest + 1
                 && |s'.engine.log| == n + 1
                 && var r := s'.engine.log[n];
                    r.key == k && Deserialize(Serialize(r) + rest) == Some((r, HEADER_SIZE + |k|)))
  {
    hide Sound, View, Serialize, Deserialize;
    var segSize := s.settings.segSize;
    LegalBounds(s.settings);
    SetSpec(s.engine, k, v, segSize);
    assert IdsBounded(s.engine.store) by {
      SoundIds(s.engine);
    }
    AppendSpec(s.engine.store, v, segSize);
    AppendPlace(s.engine.store, v, segSize);
    if !Refused(s.engine.store, v, segSize) {
      AppendRotates(s.engine.store, v, segSize);
      hide AppendStep, Legal;
      DeserializeWhole(Do(s, Set(k, v, json)).engine.log[|s.engine.log|], rest);
    }
  }

  lemma SoundIds(e: Engine)
    requires Sound(e)
    ensures IdsBounded(e.store)
  {
  }

  /**
   * The refusal is reachable: `scfg` accepts the largest SegSize, and the first `set` on a new
   * shard, valid as it is, then fails; the second one of the same value succeeds.
   */
  lemma ValidSetRefused(s: Settings, k: Key, v: Value)
    requires Legal(s) && !s.readOnly && KeyOk(s, k) && ValueOk(s, v, true)
    ensures var op := Op.Set(k, v, true); var s0 := State(s, Engine([], Store(map[1 := ""], 1)));
            var s1 := Do(s0, Scfg("segsize", Decimal.Print(MAX_U64), false));
            && Inv(s0) && s1.settings == s.(segSize := MAX_U64)
            && View(Do(s1, op).engine) == map[]
            && View(Do(Do(s1, op), op).engine) == map[k := v]
  {
    Decimal.ReadPrinted(MAX_U64, POW64);
    hide Decimal.Print, Decimal.FromChars, View, SetStep, TableOf, Replay;
    var empty := Store(map[1 := ""], 1);
    var s0 := State(s, Engine([], empty));
    var s1 := s0.(settings := s.(segSize := MAX_U64));
    assert Do(s0, Scfg("segsize", Decimal.Print(MAX_U64), false)) == s1;
    EmptyEngine(empty);
    FirstWriteRefused(v);
    DoKeepsInv(s1, Set(k, v, true));
    AcceptedSetSucceeds(s1, k, v, true, "");
    var s2 := Do(s1, Set(k, v, true));
    assert s2.engine.store == AppendStep(empty, v, MAX_U64).0 by { SetStore(s1.engine, k, v, MAX_U64); }
    AcceptedSetSucceeds(s2, k, v, true, "");
  }

  lemma SetStore(e: Engine, k: Key, v: Value, segSize: U64)
    ensures SetStep(e, k, v, segSize).0.store == AppendStep(e.store, v, segSize).0
  {
  }

  lemma EmptyEngine(st: Store)
    requires IdsBounded(st)
    ensures View(Engine([], st)) == map[] && Sound(Engine([], st))
  {
  }
}
