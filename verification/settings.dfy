/**
 The configuration store `Config`: a JSON-like tree of settings with the
 built-in defaults, a shallow merge of a loaded file, and reads and writes
 by dot-separated key. Reading and writing the file are left out; the
 parsed contents of a file are an input.
 */
module Settings {
  import opened Basics

  /** A JSON value. */
  datatype Value =
    | Null
    | Bool(b: bool)
    | Int(i: int)
    | Float(f: real)
    | Str(s: string)
    | List(items: seq<Value>)
    | Obj(fields: map<string, Value>)

  type Table = map<string, Value>

  const DefaultTcpPort: int := 5555
  const DefaultUdpPort: int := 5556
  const DefaultHost: string := "0.0.0.0"
  const BufferSize: int := 8192

  /** `_load_defaults`: three sections of settings. */
  function Defaults(): (t: Table)
    ensures t.Keys == {"network", "media", "ui"}
    ensures t["network"] == Obj(map["tcp_port" := Int(DefaultTcpPort), "udp_port" := Int(DefaultUdpPort),
                                    "host" := Str(DefaultHost), "buffer_size" := Int(BufferSize)])
  {
    map[
      "network" := Obj(map["tcp_port" := Int(DefaultTcpPort), "udp_port" := Int(DefaultUdpPort),
                           "host" := Str(DefaultHost), "buffer_size" := Int(BufferSize)]),
      "media" := Obj(map["video_width" := Int(640), "video_height" := Int(480), "video_fps" := Int(30),
                         "audio_sample_rate" := Int(44100), "audio_channels" := Int(2)]),
      "ui" := Obj(map["theme" := Str("dark"), "remember_me" := Bool(false), "last_username" := Str("")])
    ]
  }

  // ---------------------------------------------------------------------------
  // Dot-separated keys
  // ---------------------------------------------------------------------------

  /** `s.split('.')`: the pieces between dots, empty pieces included; never empty. */
  function Split(s: string): (parts: seq<string>)
    ensures |parts| >= 1
    ensures forall i :: 0 <= i < |parts| ==> '.' !in parts[i]
    decreases |s|
  {
    if |s| == 0 then [""]
    else
      var rest := Split(s[1..]);
      if s[0] == '.' then [""] + rest
      else
        assert forall i {:trigger rest[i]} :: 1 <= i < |rest| ==> ([[s[0]] + rest[0]] + rest[1..])[i] == rest[i];
        [[s[0]] + rest[0]] + rest[1..]
  }

  /** `'.'.join(parts)`. */
  function Join(parts: seq<string>): string
    requires |parts| >= 1
    decreases |parts|
  {
    if |parts| == 1 then parts[0] else parts[0] + "." + Join(parts[1..])
  }

  /** Splitting a key and joining the pieces gives the key back. */
  lemma {:induction false} JoinSplit(s: string)
    ensures Join(Split(s)) == s
    decreases |s|
  {
    if |s| > 0 {
      JoinSplit(s[1..]);
      var rest := Split(s[1..]);
      if s[0] == '.' {
        assert Split(s) == [""] + rest;
        assert (["" ] + rest)[1..] == rest;
      } else {
        var parts := [[s[0]] + rest[0]] + rest[1..];
        assert Split(s) == parts;
        if |rest| == 1 {
          assert Join(parts) == [s[0]] + rest[0];
        } else {
          assert parts[1..] == rest[1..];
          assert Join(parts) == ([s[0]] + rest[0]) + "." + Join(rest[1..]);
          assert Join(rest) == rest[0] + "." + Join(rest[1..]);
        }
      }
      assert s == [s[0]] + s[1..];
    }
  }

  /** Pieces without dots, joined and split again, come back unchanged. */
  lemma {:induction false} SplitJoin(parts: seq<string>)
    requires |parts| >= 1
    requires forall i :: 0 <= i < |parts| ==> '.' !in parts[i]
    ensures Split(Join(parts)) == parts
    decreases |parts|
  {
    if |parts| == 1 {
      SplitNoDot(parts[0]);
    } else {
      SplitJoin(parts[1..]);
      SplitConcat(parts[0], Join(parts[1..]));
      assert [parts[0]] + parts[1..] == parts;
    }
  }

  lemma {:induction false} SplitNoDot(s: string)
    requires '.' !in s
    ensures Split(s) == [s]
    decreases |s|
  {
    if |s| > 0 {
      assert s[0] != '.';
      assert forall c :: c in s[1..] ==> c in s;
      SplitNoDot(s[1..]);
      assert [s[0]] + s[1..] == s;
    }
  }

  /** Splitting `a . b` for a dot-free `a` gives `a` then the pieces of `b`. */
  lemma {:induction false} SplitConcat(a: string, b: string)
    requires '.' !in a
    ensures Split(a + "." + b) == [a] + Split(b)
    decreases |a|
  {
    if |a| == 0 {
      assert a + "." + b == ['.'] + b;
      assert (['.'] + b)[1..] == b;
    } else {
      assert forall c :: c in a[1..] ==> c in a;
      SplitConcat(a[1..], b);
      var s := a + "." + b;
      assert s[0] == a[0] && s[1..] == a[1..] + "." + b;
      var rest := Split(s[1..]);
      assert rest == [a[1..]] + Split(b);
      assert [a[0]] + a[1..] == a;
    }
  }

  // ---------------------------------------------------------------------------
  // Reads and writes
  // ---------------------------------------------------------------------------

  /**
   The walk of `get`: at each key, a dictionary yields the key's value or,
   when the key is missing, `default` (and the walk continues from there);
   anything else ends the walk with `default`.
   */
  function Walk(value: Value, keys: seq<string>, default: Value): (v: Value)
    decreases |keys|
  {
    if |keys| == 0 then value
    else match value
      case Obj(fields) => Walk(if keys[0] in fields then fields[keys[0]] else default, keys[1..], default)
      case _ => default
  }

  /** `get(key, default)`. */
  function Get(settings: Table, key: string, default: Value): Value {
    Walk(Obj(settings), Split(key), default)
  }

  /** A path of dictionaries: every key is present and holds a dictionary except possibly the last. */
  predicate DictPath(t: Table, keys: seq<string>)
    decreases |keys|
  {
    |keys| <= 1 || (keys[0] in t && t[keys[0]].Obj? && DictPath(t[keys[0]].fields, keys[1..]))
  }

  /** The walk along present keys reaches the stored value, whatever the default. */
  lemma {:induction false} WalkPresent(t: Table, keys: seq<string>, v: Value, default: Value)
    requires |keys| >= 1 && DictPath(t, keys) && Reach(t, keys) == Some(v)
    ensures Walk(Obj(t), keys, default) == v
    decreases |keys|
  {
    if |keys| > 1 {
      WalkPresent(t[keys[0]].fields, keys[1..], v, default);
    }
  }

  /** The value stored under a path of present keys, if the path exists. */
  function Reach(t: Table, keys: seq<string>): Option<Value>
    requires |keys| >= 1
    decreases |keys|
  {
    if keys[0] !in t then None
    else if |keys| == 1 then Some(t[keys[0]])
    else match t[keys[0]]
      case Obj(fields) => Reach(fields, keys[1..])
      case _ => None
  }

  /** A write rejected because a key on its path holds something other than a dictionary. */
  datatype SetError = NotADict(key: string)

  /**
   The assignment of `set` along `keys`: missing intermediate keys get
   empty dictionaries (`setdefault(k, {})`), the last key gets `v`. An
   intermediate key holding a non-dictionary makes Python raise; since the
   dictionaries created before that point are all new and empty, no such
   key can follow them, so the failure leaves the settings unchanged.
   */
  function SetPath(t: Table, keys: seq<string>, v: Value): (r: Result<Table, SetError>)
    requires |keys| >= 1
    ensures r.Ok? ==> keys[0] in r.value && r.value.Keys == t.Keys + {keys[0]}
    ensures r.Ok? ==> forall k :: k in t && k != keys[0] ==> r.value[k] == t[k]
    decreases |keys|
  {
    if |keys| == 1 then Ok(t[keys[0] := v])
    else
      var child := if keys[0] in t then t[keys[0]] else Obj(map[]);
      match child
      case Obj(fields) =>
        (match SetPath(fields, keys[1..], v)
         case Ok(fields') => Ok(t[keys[0] := Obj(fields')])
         case Err(e) => Err(e))
      case _ => Err(NotADict(keys[0]))
  }

  /** `set(key, value)`. */
  function Set(settings: Table, key: string, v: Value): Result<Table, SetError> {
    SetPath(settings, Split(key), v)
  }

  /** Every intermediate key is absent or holds a dictionary: the only case `set` does not raise. */
  predicate Writable(t: Table, keys: seq<string>)
    decreases |keys|
  {
    |keys| <= 1 || (keys[0] !in t || (t[keys[0]].Obj? && Writable(t[keys[0]].fields, keys[1..])))
  }

  /** A write succeeds exactly when the path is writable. */
  lemma {:induction false} SetSucceeds(t: Table, keys: seq<string>, v: Value)
    requires |keys| >= 1
    ensures SetPath(t, keys, v).Ok? <==> Writable(t, keys)
    decreases |keys|
  {
    if |keys| > 1 {
      if keys[0] in t && t[keys[0]].Obj? {
        SetSucceeds(t[keys[0]].fields, keys[1..], v);
      } else if keys[0] !in t {
        EmptyWritable(keys[1..], v);
      }
    }
  }

  lemma {:induction false} EmptyWritable(keys: seq<string>, v: Value)
    requires |keys| >= 1
    ensures Writable(map[], keys) && SetPath(map[], keys, v).Ok?
    decreases |keys|
  {
    if |keys| > 1 {
      EmptyWritable(keys[1..], v);
    }
  }

  /** After a successful write the path consists of dictionaries and reads back the written value. */
  lemma {:induction false} GetAfterSetPath(t: Table, keys: seq<string>, v: Value, default: Value)
    requires |keys| >= 1 && SetPath(t, keys, v).Ok?
    ensures DictPath(SetPath(t, keys, v).value, keys)
    ensures Reach(SetPath(t, keys, v).value, keys) == Some(v)
    ensures Walk(Obj(SetPath(t, keys, v).value), keys, default) == v
    decreases |keys|
  {
    if |keys| > 1 {
      var child := if keys[0] in t then t[keys[0]] else Obj(map[]);
      GetAfterSetPath(child.fields, keys[1..], v, default);
    }
  }

  /** `get(key)` right after a successful `set(key, v)` returns `v`. */
  lemma GetAfterSet(settings: Table, key: string, v: Value, default: Value)
    requires Set(settings, key, v).Ok?
    ensures Get(Set(settings, key, v).value, key, default) == v
  {
    GetAfterSetPath(settings, Split(key), v, default);
  }

  /**
   A write changes nothing off its path: with a default that is not a
   dictionary (Python's `None`), a path that agrees with the written one on
   its first `i` keys and differs at key `i` reads as before.
   */
  lemma {:induction false} SetPathFrame(t: Table, keys: seq<string>, v: Value, other: seq<string>, i: nat, default: Value)
    requires |keys| >= 1 && SetPath(t, keys, v).Ok? && !default.Obj?
    requires i < |keys| && i < |other| && keys[..i] == other[..i] && keys[i] != other[i]
    ensures Walk(Obj(SetPath(t, keys, v).value), other, default) == Walk(Obj(t), other, default)
    decreases |keys|
  {
    var t' := SetPath(t, keys, v).value;
    if i == 0 {
      assert other[0] != keys[0];
      OffPathRead(t, t', keys[0], other, default);
    } else {
      assert keys[0] == other[0];
      SetPathStep(t, keys, v);
      var child := if keys[0] in t then t[keys[0]] else Obj(map[]);
      assert keys[1..][..i - 1] == other[1..][..i - 1];
      SetPathFrame(child.fields, keys[1..], v, other[1..], i - 1, default);
      if keys[0] !in t {
        DefaultWalks(other[1..], default);
      }
    }
  }

  /** The step of a successful write along more than one key. */
  lemma SetPathStep(t: Table, keys: seq<string>, v: Value)
    requires |keys| > 1 && SetPath(t, keys, v).Ok?
    ensures var child := if keys[0] in t then t[keys[0]] else Obj(map[]);
            && child.Obj? && SetPath(child.fields, keys[1..], v).Ok?
            && SetPath(t, keys, v).value == t[keys[0] := Obj(SetPath(child.fields, keys[1..], v).value)]
  {
  }

  /** A table changed only at key `k` reads as before along a path starting elsewhere. */
  lemma OffPathRead(t: Table, t': Table, k: string, other: seq<string>, default: Value)
    requires |other| >= 1 && other[0] != k
    requires t'.Keys == t.Keys + {k} && forall k' :: k' in t && k' != k ==> t'[k'] == t[k']
    ensures Walk(Obj(t'), other, default) == Walk(Obj(t), other, default)
  {
    assert (other[0] in t') == (other[0] in t);
  }

  /** With a non-dictionary default, a read from an empty dictionary or from the default itself yields the default. */
  lemma DefaultWalks(keys: seq<string>, default: Value)
    requires |keys| >= 1 && !default.Obj?
    ensures Walk(Obj(map[]), keys, default) == default
    ensures Walk(default, keys, default) == default
  {
  }

  /**
   `load` with the parsed contents of the file: a JSON object replaces whole
   top-level sections (`dict.update`); anything unreadable leaves the
   settings as they were.
   */
  function Load(settings: Table, loaded: Option<Value>): (t: Table)
    ensures loaded.Some? && loaded.value.Obj? ==> t.Keys == settings.Keys + loaded.value.fields.Keys
    ensures loaded.Some? && loaded.value.Obj? ==> forall k :: k in loaded.value.fields ==> t[k] == loaded.value.fields[k]
    ensures forall k :: k in settings && (loaded.None? || !loaded.value.Obj? || k !in loaded.value.fields) ==> k in t && t[k] == settings[k]
  {
    match loaded
    case Some(Obj(fields)) => settings + fields
    case _ => settings
  }

  /**
   The merge is shallow: a file whose section `section` holds `fields`
   replaces that whole section, so a key of the section the file omits (for
   instance `network.udp_port` when the file sets only `network.tcp_port`)
   reads as the caller's default, while other sections read as before.
   */
  lemma LoadedSectionReplaces(settings: Table, section: string, fields: Table, key: string, other: seq<string>, default: Value)
    requires key !in fields && |other| >= 1 && other[0] != section
    ensures var t := Load(settings, Some(Obj(map[section := Obj(fields)])));
            && Walk(Obj(t), [section, key], default) == default
            && Walk(Obj(t), other, default) == Walk(Obj(settings), other, default)
  {
    var t := Load(settings, Some(Obj(map[section := Obj(fields)])));
    assert t[section] == Obj(fields);
    assert [section, key][1..] == [key] && [key][1..] == [];
    assert Walk(Obj(t), [section, key], default) == Walk(Obj(fields), [key], default);
    assert Walk(Obj(fields), [key], default) == Walk(default, [], default);
    OffPathRead(settings, t, section, other, default);
  }

  /** The built-in network settings read back through dotted keys. */
  lemma DefaultPorts(default: Value)
    ensures Walk(Obj(Defaults()), ["network", "tcp_port"], default) == Int(5555)
    ensures Walk(Obj(Defaults()), ["network", "udp_port"], default) == Int(5556)
    ensures Walk(Obj(Defaults()), ["network", "buffer_size"], default) == Int(8192)
  {
  }
}
