/** The expression compiler's memo table, a client of the shared cache. Sanitising, parsing and validating are
    functions given from outside. */
module ExpressionCache {
  import opened Prelude
  import opened OrderedMaps
  import opened CacheSpec
  import opened CacheFacts
  import opened CacheRuns
  import opened CacheInclusion
  import CacheReads
  import SharedCache

  datatype CompileError = SyntaxError | ForbiddenExpression

  /** What `compile` means without any cache. */
  function CompileAfresh<Ast>(sanitize: string -> string, parse: string -> Option<Ast>, validate: Ast -> bool,
                              text: string)
    : Result<Ast, CompileError>
  {
    Checked(parse, validate, sanitize(text))
  }

  function Checked<Ast>(parse: string -> Option<Ast>, validate: Ast -> bool, safe: string): Result<Ast, CompileError> {
    match parse(safe)
    case None => Err(SyntaxError)
    case Some(ast) => if validate(ast) then Ok(ast) else Err(ForbiddenExpression)
  }

  /** A tree is what the sanitised text parses to, and the validator lets it pass; a text that does not parse is a
      syntax error, one whose tree does not pass is forbidden. */
  lemma CompilesIff<Ast>(sanitize: string -> string, parse: string -> Option<Ast>, validate: Ast -> bool,
                         text: string, ast: Ast)
    ensures var r := CompileAfresh(sanitize, parse, validate, text);
      && (r == Ok(ast) <==> parse(sanitize(text)) == Some(ast) && validate(ast))
      && (r == Err(SyntaxError) <==> parse(sanitize(text)) == None)
      && (r == Err(ForbiddenExpression) <==>
            parse(sanitize(text)).Some? && !validate(parse(sanitize(text)).value))
  {
  }

  function CacheOptions<Ast>(maxSize: Number): Options<Ast> {
    Options(Never, Finite(0.0), maxSize, None, None, Lru)
  }

  lemma YoungestAppend<T>(keys: seq<T>, k: T, n: nat)
    ensures Youngest(Youngest(keys, n) + [k], n) == Youngest(keys + [k], n)
  {
  }

  lemma YoungestPart<T(!new)>(keys: seq<T>, n: nat, x: T)
    ensures x in Youngest(keys, n) ==> x in keys
  {
  }

  /** Every memoised expression is one that compiles, to the tree stored for it. */
  ghost predicate Sound<Ast>(parse: string -> Option<Ast>, validate: Ast -> bool, table: map<string, Entry<Ast>>) {
    forall k :: k in table ==> Checked(parse, validate, k) == Ok(table[k].value)
  }

  class Compiler<Ast> {
    const sanitize: string -> string
    const parse: string -> Option<Ast>
    const validate: Ast -> bool
    var maxSize: Number
    var cache: SharedCache.Cache<string, Ast>

    ghost predicate Valid()
      reads this, cache
    {
      && cache.Valid() && Plain(cache.cfg) && cache.cfg.policy.Lru?
      && Idle(cache.cfg, cache.St())
      && Sound(parse, validate, cache.entries.table)
    }

    constructor (sanitize: string -> string, parse: string -> Option<Ast>, validate: Ast -> bool)
      ensures Valid() && fresh(cache) && maxSize == Finite(500.0)
      ensures this.sanitize == sanitize && this.parse == parse && this.validate == validate
      ensures cache.cfg == Configure<Ast>(CacheOptions(maxSize)).value && cache.entries.keys == []
    {
      this.sanitize, this.parse, this.validate := sanitize, parse, validate;
      maxSize := Finite(500.0);
      cache := new SharedCache.Cache(Configure<Ast>(CacheOptions(Finite(500.0))).value);
    }

    /** The memo never changes the answer, and expressions that fail leave no trace but a miss. */
    method Compile(text: string, now: real) returns (r: Result<Ast, CompileError>)
      requires Valid()
      modifies cache
      ensures Valid() && cache.cfg == old(cache.cfg)
      ensures r == CompileAfresh(sanitize, parse, validate, text)
      ensures var safe, keys := sanitize(text), old(cache.entries.keys);
        cache.entries.keys ==
          if safe in keys then HitKey(keys, safe, Lru)
          else if r.Ok? then UseKey(keys, safe, cache.cfg.capacity)
          else keys
    {
      var safe := sanitize(text);
      ghost var s0 := cache.St();
      GetOrder(cache.cfg, s0, safe, now, Get(cache.cfg, s0, safe, now).0);
      GetValues(cache.cfg, s0, safe, now);
      var hit := cache.Read(safe, now);
      if hit.value.Some? { return Ok(hit.value.value); }
      var parsed := parse(safe);
      if parsed.None? { return Err(SyntaxError); }
      if !validate(parsed.value) { return Err(ForbiddenExpression); }
      ghost var s1 := cache.St();
      ghost var s2 := Store(cache.cfg, s1, safe, parsed.value, NO_OPTIONS, now);
      SetOrder(cache.cfg, s1, safe, parsed.value, now, s2);
      StoreValues(cache.cfg, s1, safe, parsed.value, now, s2);
      var stored := cache.Write(safe, parsed.value, NO_OPTIONS, now);
      return Ok(parsed.value);
    }

    method ClearCache()
      requires Valid()
      modifies cache
      ensures Valid() && cache.entries.keys == []
    {
      ClearKeeps(cache.cfg, cache.St());
      EverythingKeeps(cache.cfg, Bump(cache.St(), cache.St().pending.Keys));
      cache.ClearAll();
    }

    /** Copies the live entries over, oldest first; the old cache stays as it was. */
    static method Transfer(prev: SharedCache.Cache<string, Ast>, next: SharedCache.Cache<string, Ast>, now: real)
      requires prev != next && prev.Valid() && Plain(prev.cfg) && Idle(prev.cfg, prev.St())
      requires next.Valid() && Plain(next.cfg) && Idle(next.cfg, next.St()) && next.entries.keys == []
      modifies prev, next
      ensures prev.Valid() && prev.St() == old(prev.St())
      ensures next.Valid() && Idle(next.cfg, next.St())
      ensures next.entries.keys == Youngest(prev.entries.keys, next.cfg.capacity)
      ensures forall k :: k in next.entries.table ==>
                k in prev.entries.table && next.entries.table[k].value == prev.entries.table[k].value
    {
      ghost var s0 := prev.St();
      NothingExpires(prev.cfg, s0, now);
      var keys := prev.Keys(now);
      assert keys == prev.entries.keys;
      for i := 0 to |keys|
        invariant prev.Valid() && prev.St() == s0
        invariant next.Valid() && Idle(next.cfg, next.St())
        invariant next.entries.keys == Youngest(keys[..i], next.cfg.capacity)
        invariant forall k :: k in next.entries.table ==>
          k in s0.entries.table && next.entries.table[k].value == s0.entries.table[k].value
      {
        assert keys[i] in s0.entries.table;
        var ast := prev.PeekAt(keys[i], now);
        assert ast == Some(s0.entries.table[keys[i]].value);
        TransferStep(next.cfg, next.St(), keys, i, ast.value, now);
        var stored := next.Write(keys[i], ast.value, NO_OPTIONS, now);
      }
      assert keys[..|keys|] == keys;
    }

    /** A new size moves the youngest expressions over, in order. A size the cache refuses is remembered all the
        same, so that asking for it again is a silent no-op. */
    method ConfigureCache(size: Option<Number>, now: real) returns (r: Result<(), Error>)
      requires Valid()
      modifies this, cache
      ensures Valid()
      ensures maxSize == if size.Some? then size.value else old(maxSize)
      ensures r == if size.Some? && Differs(size.value, old(maxSize)) && Configure<Ast>(CacheOptions(size.value)).Err?
                   then Err(BadOption) else Ok(())
      ensures r.Err? || size.None? || !Differs(size.value, old(maxSize)) ==>
                cache == old(cache) && cache.St() == old(cache.St())
      ensures r.Ok? && size.Some? && Differs(size.value, old(maxSize)) ==>
                && fresh(cache) && cache.cfg == Configure<Ast>(CacheOptions(size.value)).value
                && cache.entries.keys == Youngest(old(cache.entries.keys), cache.cfg.capacity)
                && (forall k :: k in cache.entries.table ==>
                  cache.entries.table[k].value == old(cache.entries.table)[k].value)
    {
      if size.None? || !Differs(size.value, maxSize) { return Ok(()); }
      maxSize := size.value;
      var prev := cache;
      var config := Configure<Ast>(CacheOptions(size.value));
      if config.Err? { return Err(config.error); }
      var next := new SharedCache.Cache(config.value);
      Transfer(prev, next, now);
      cache := next;
      prev.DisposeAll(now);
      return Ok(());
    }
  }

  /** `!==` on the sizes: only NaN differs from itself. */
  predicate Differs(a: Number, b: Number) { a.NaN? || a != b }

  lemma GetValues<K(!new), V>(cfg: Config<V>, s: State<K, V>, k: K, now: real)
    requires Plain(cfg) && Idle(cfg, s)
    ensures var g := Get(cfg, s, k, now);
      && g.0.entries.table == s.entries.table
      && g.1 == if k in s.entries.table then Some(s.entries.table[k].value) else None
  {
    if k in s.entries.table { TouchFacts(cfg, s.entries, k); }
  }

  /** After a write of `v` to `k`, every entry is that one or an old one. */
  ghost predicate OnlyWrites<K(!new), V>(s: State<K, V>, r: State<K, V>, k: K, v: V) {
    forall j :: j in r.entries.table ==>
      if j == k then r.entries.table[j].value == v else j in s.entries.table && r.entries.table[j] == s.entries.table[j]
  }

  lemma StoreValues<K(!new), V>(cfg: Config<V>, s: State<K, V>, k: K, v: V, now: real, r: State<K, V>)
    requires WellFormed(s.entries) && r == Store(cfg, s, k, v, NO_OPTIONS, now)
    ensures OnlyWrites(s, r, k, v)
  {
    forall j | j in r.entries.table
      ensures if j == k then r.entries.table[j].value == v
              else j in s.entries.table && r.entries.table[j] == s.entries.table[j]
    {
      CacheReads.StoreExplained(cfg, s, k, v, NO_OPTIONS, now, r, j);
    }
  }

  /** Storing the next key of a distinct sequence into a cache that holds the youngest of those before it. */
  lemma TransferOrder<K(!new)>(keys: seq<K>, i: nat, n: nat)
    requires Distinct(keys) && i < |keys|
    ensures UseKey(Youngest(keys[..i], n), keys[i], n) == Youngest(keys[..i + 1], n)
  {
    var young := Youngest(keys[..i], n);
    YoungestPart(keys[..i], n, keys[i]);
    MinusNothing(young, {keys[i]});
    YoungestAppend(keys[..i], keys[i], n);
    assert keys[..i] + [keys[i]] == keys[..i + 1];
  }

  lemma TransferStep<K(!new), V>(cfg: Config<V>, s: State<K, V>, keys: seq<K>, i: nat, v: V, now: real)
    requires Plain(cfg) && Idle(cfg, s) && Distinct(keys) && i < |keys|
    requires s.entries.keys == Youngest(keys[..i], cfg.capacity)
    ensures var r := Store(cfg, s, keys[i], v, NO_OPTIONS, now);
      Idle(cfg, r) && r.entries.keys == Youngest(keys[..i + 1], cfg.capacity) && OnlyWrites(s, r, keys[i], v)
  {
    var r := Store(cfg, s, keys[i], v, NO_OPTIONS, now);
    SetOrder(cfg, s, keys[i], v, now, r);
    StoreValues(cfg, s, keys[i], v, now, r);
    TransferOrder(keys, i, cfg.capacity);
  }
}
