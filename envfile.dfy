/** The environment file format of envcrypto/state.py and the value-level
    semantics of State: what a load produces from a file, what a save
    writes, and the read-only queries. The class in states.dfy performs
    these steps in place and is proved against the functions here. */
module EnvFile {
  import opened Wrappers
  import opened Exceptions
  import opened Cipher
  import opened Dicts

  const FILE_EXTENSION: string := "env"
  const SECRET_SIZE: nat := 50
  const CHAR_LIST: string := "abcdefghijklmnopqrstuvwxyz0123456789!@#$%^&*(-_=+)"

  const NAME: string := "name"
  const SIGNED_NAME: string := "signed_name"
  const SECRET_KEY: string := "SECRET_KEY"
  const CRYPTO_TYPE: string := "cryto_family"   // the historical spelling is the on-disk key
  const CRYPTO_ALGORITHM: string := "crypto_algorithm"
  const VERSION: string := "version"

  const CURRENT_VERSION: string := "0.8.4"
  const DEFAULT_FAMILY: string := "symmetric"
  const DEFAULT_ALGORITHM: string := "fernet"

  /** Keys that are metadata and never user variables. */
  const CONTROLLED_VOCABULARY: seq<string> :=
    [NAME, SIGNED_NAME, SECRET_KEY, CRYPTO_ALGORITHM, CRYPTO_TYPE, VERSION]
  /** Keys without which a file is rejected. */
  const REQUIRED_VOCABULARY: seq<string> := [NAME, SIGNED_NAME, SECRET_KEY]

  predicate IsReserved(k: string)
  {
    k in CONTROLLED_VOCABULARY
  }

  predicate IsVariable(k: string)
  {
    !IsReserved(k)
  }

  /** A parsed file: a JSON object of strings, in file order. */
  type EnvObject = Dictionary<string>

  /** The variable names among `keys`, in order. */
  function Variables(keys: seq<string>): (r: seq<string>)
    ensures forall x :: x in r <==> x in keys && IsVariable(x)
  {
    FilterKeeps(keys, IsVariable);
    Filter(keys, IsVariable)
  }

  // ---------------------------------------------------------------------
  // Case normalisation of variable names (str.upper on ASCII)

  function UpperChar(c: char): char
  {
    if 'a' <= c <= 'z' then (c as int - 32) as char else c
  }

  function Upper(s: string): (u: string)
    ensures |u| == |s|
    ensures forall i | 0 <= i < |s| :: u[i] == UpperChar(s[i]) && !('a' <= u[i] <= 'z')
  {
    seq(|s|, i requires 0 <= i < |s| => UpperChar(s[i]))
  }

  /** An upper-cased name is never one of the lower-case metadata keys:
      the only reserved key `add` can create is SECRET_KEY. */
  lemma UpperNameIsVariableOrSecret(s: string)
    ensures Upper(s) == SECRET_KEY || IsVariable(Upper(s))
  {
    var u := Upper(s);
    if |u| > 0 {
      assert !('a' <= u[0] <= 'z');
    }
  }

  // ---------------------------------------------------------------------
  // read_file and process_file_update

  predicate HasRequired(f: EnvObject)
  {
    forall x | x in REQUIRED_VOCABULARY :: x in f.vals
  }

  /** Reads `filename` from the directory snapshot `files` (a name that is
      absent stands for a file that cannot be opened or parsed). */
  function ReadFile(files: map<string, EnvObject>, filename: string): (r: Result<EnvObject, Error>)
    ensures r.Success? <==> filename in files && NAME in files[filename].vals
                            && SIGNED_NAME in files[filename].vals && SECRET_KEY in files[filename].vals
    ensures r.Success? ==> r.value == files[filename] && HasRequired(r.value)
    ensures r.Failure? ==> r.error == InvalidEnvFile
  {
    if filename !in files then Failure(InvalidEnvFile)
    else if exists x | x in REQUIRED_VOCABULARY :: x !in files[filename].vals then Failure(InvalidEnvFile)
    else Success(files[filename])
  }

  datatype Metadata = Metadata(cryptoType: string, cryptoAlgorithm: string, version: string)

  /** The metadata a file declares, with defaults for the absent fields, and
      whether any default was needed (the file then has to be rewritten). */
  function ProcessFileUpdate(f: EnvObject): (r: (Metadata, bool))
    ensures r.1 <==> CRYPTO_TYPE !in f.vals || CRYPTO_ALGORITHM !in f.vals || VERSION !in f.vals
    ensures r.0.cryptoType == if CRYPTO_TYPE in f.vals then f.vals[CRYPTO_TYPE] else DEFAULT_FAMILY
    ensures r.0.cryptoAlgorithm == if CRYPTO_ALGORITHM in f.vals then f.vals[CRYPTO_ALGORITHM] else DEFAULT_ALGORITHM
    ensures r.0.version == if VERSION in f.vals then f.vals[VERSION] else CURRENT_VERSION
  {
    var (family, u1) := if CRYPTO_TYPE in f.vals then (f.vals[CRYPTO_TYPE], false) else (DEFAULT_FAMILY, true);
    var (algorithm, u2) := if CRYPTO_ALGORITHM in f.vals then (f.vals[CRYPTO_ALGORITHM], false) else (DEFAULT_ALGORITHM, true);
    var (version, u3) := if VERSION in f.vals then (f.vals[VERSION], false) else (CURRENT_VERSION, true);
    (Metadata(family, algorithm, version), u1 || u2 || u3)
  }

  // ---------------------------------------------------------------------
  // The in-memory state, as a value

  datatype Snapshot = Snapshot(
    name: string,
    cryptoType: Option<string>,
    cryptoAlgorithm: Option<string>,
    version: Option<string>,
    secret: Option<string>,
    data: Dictionary<Option<string>>,
    decrypted: bool)
  {
    /** `name in state`: the reserved secret name, or a variable, compared
        as given (no upper-casing). */
    predicate Contains(k: string)
    {
      k == SECRET_KEY || k in data.vals
    }

    /** `iter(state)`: the secret under its reserved name, then every
        variable once, in dict order. */
    function Iter(): (r: seq<(string, Option<string>)>)
      ensures |r| == |data.keys| + 1
      ensures r[0] == (SECRET_KEY, secret)
      ensures forall i | 1 <= i < |r| :: r[i] == (data.keys[i - 1], data.vals[data.keys[i - 1]])
    {
      [(SECRET_KEY, secret)] + Get()
    }

    /** `state.get()`: the variables only, each once, in dict order. */
    function Get(): (r: seq<(string, Option<string>)>)
      ensures |r| == |data.keys|
      ensures forall i | 0 <= i < |r| :: r[i] == (data.keys[i], data.vals[data.keys[i]])
      ensures forall x :: x in data.vals <==> exists i | 0 <= i < |r| :: r[i].0 == x
    {
      Items(data)
    }

    /** The names the enumeration yields, in order (see IterNamesOfIter). */
    function IterNames(): seq<string>
    {
      [SECRET_KEY] + data.keys
    }
  }

  /** IterNames lists the first components of `iter(state)`. */
  lemma IterNamesOfIter(s: Snapshot)
    ensures |s.IterNames()| == |s.Iter()|
    ensures forall i | 0 <= i < |s.Iter()| :: s.IterNames()[i] == s.Iter()[i].0
  {
  }

  /** `name in state` holds exactly for the names `iter(state)` yields. */
  lemma ContainsMatchesIter(s: Snapshot, k: string)
    ensures s.Contains(k) <==> exists i | 0 <= i < |s.Iter()| :: s.Iter()[i].0 == k
  {
    if s.Contains(k) {
      IterYieldsContained(s, k);
    } else {
      IterYieldsOnlyContained(s, k);
    }
  }

  lemma IterYieldsContained(s: Snapshot, k: string)
    requires s.Contains(k)
    ensures exists i | 0 <= i < |s.Iter()| :: s.Iter()[i].0 == k
  {
    var it := s.Iter();
    if k == SECRET_KEY {
      assert it[0].0 == k;
    } else {
      var j := IndexOf(s.data.keys, k);
      assert it[j + 1].0 == k;
    }
  }

  lemma IterYieldsOnlyContained(s: Snapshot, k: string)
    requires !s.Contains(k)
    ensures forall i | 0 <= i < |s.Iter()| :: s.Iter()[i].0 != k
  {
    var it := s.Iter();
    forall i | 0 <= i < |it|
      ensures it[i].0 != k
    {
      if i > 0 {
        assert it[i].0 == s.data.keys[i - 1];
      }
    }
  }

  /** Every variable name is a non-reserved key or SECRET_KEY (which only
      `add` can introduce). */
  predicate KeysOk(s: Snapshot)
  {
    forall x | x in s.data.vals :: x == SECRET_KEY || IsVariable(x)
  }

  /** What holds of a State whose signed name was verified: metadata, secret
      and every variable value are known. */
  predicate Unlocked(s: Snapshot)
  {
    && s.decrypted
    && s.cryptoType.Some? && s.cryptoAlgorithm.Some? && s.version.Some?
    && s.secret.Some?
    && forall x | x in s.data.vals :: s.data.vals[x].Some?
  }

  /** A State as __init__ leaves it before loading. */
  function Initial(): (s: Snapshot)
    ensures !s.decrypted && s.data.keys == [] && s.secret.None?
  {
    Snapshot("", None, None, None, None, Empty(), false)
  }

  // ---------------------------------------------------------------------
  // load_data, load_and_decrypt_data and load

  /** load_data over `keys`: every non-reserved key is added to `d0` with no value. */
  function LockedFill(d0: Dictionary<Option<string>>, keys: seq<string>): Dictionary<Option<string>>
  {
    if keys == [] then d0
    else
      var d := LockedFill(d0, keys[..|keys| - 1]);
      var x := keys[|keys| - 1];
      if IsReserved(x) then d else Put(d, x, None)
  }
  /** One more key of load_data. */
  lemma LockedFillStep(d0: Dictionary<Option<string>>, keys: seq<string>, i: nat)
    requires i < |keys|
    ensures LockedFill(d0, keys[..i + 1]) ==
      if IsReserved(keys[i]) then LockedFill(d0, keys[..i]) else Put(LockedFill(d0, keys[..i]), keys[i], None)
  {
    assert keys[..i + 1][..i] == keys[..i];
  }


  /** Starting from no variables, load_data records exactly the variable
      names of the file, in file order, none with a value. */
  lemma {:induction false} LockedFillShape(keys: seq<string>)
    requires NoDup(keys)
    ensures LockedFill(Empty(), keys).keys == Variables(keys)
    ensures forall x | x in LockedFill(Empty(), keys).vals :: LockedFill(Empty(), keys).vals[x] == None
  {
    if keys != [] {
      var keys' := keys[..|keys| - 1];
      assert NoDup(keys');
      LockedFillShape(keys');
      assert keys[|keys| - 1] !in keys';
    }
  }

  /** The variable loop of load_and_decrypt_data over `keys`: each
      non-reserved key is decrypted into `d0`; the first value that does not
      decrypt raises InvalidKey. */
  function DecryptVars(k: string, d0: Dictionary<Option<string>>, file: EnvObject, keys: seq<string>)
    : (r: Result<Dictionary<Option<string>>, Error>)
    requires forall x | x in keys :: x in file.vals
    ensures r.Failure? ==> r.error == InvalidKey
  {
    if keys == [] then Success(d0)
    else
      var x := keys[|keys| - 1];
      match DecryptVars(k, d0, file, keys[..|keys| - 1])
      case Failure(e) => Failure(e)
      case Success(d) =>
        if IsReserved(x) then Success(d)
        else match Decrypt(k, file.vals[x])
          case None => Failure(InvalidKey)
          case Some(v) => Success(Put(d, x, Some(v)))
  }

  /** Starting from no variables, the decrypting loop succeeds exactly when
      every variable of the file decrypts, and then holds every variable
      name, in file order, with its decrypted value. */
  lemma {:induction false} DecryptVarsShape(k: string, file: EnvObject, keys: seq<string>)
    requires NoDup(keys) && forall x | x in keys :: x in file.vals
    ensures var r := DecryptVars(k, Empty(), file, keys);
      && (r.Success? <==> forall x | x in Variables(keys) :: Decrypt(k, file.vals[x]).Some?)
      && (r.Success? ==>
            && r.value.keys == Variables(keys)
            && forall x | x in r.value.vals :: r.value.vals[x] == Decrypt(k, file.vals[x]))
  {
    if keys != [] {
      var keys' := keys[..|keys| - 1];
      var x := keys[|keys| - 1];
      assert NoDup(keys');
      assert x !in keys';
      DecryptVarsShape(k, file, keys');
    }
  }

  /** One more key of the decrypting loop. */
  lemma DecryptVarsStep(k: string, d0: Dictionary<Option<string>>, file: EnvObject, keys: seq<string>, i: nat,
                        d: Dictionary<Option<string>>)
    requires i < |keys| && forall x | x in keys :: x in file.vals
    requires DecryptVars(k, d0, file, keys[..i]) == Success(d)
    ensures IsReserved(keys[i]) ==> DecryptVars(k, d0, file, keys[..i + 1]) == Success(d)
    ensures !IsReserved(keys[i]) && Decrypt(k, file.vals[keys[i]]).None? ==>
      DecryptVars(k, d0, file, keys[..i + 1]).Failure?
    ensures !IsReserved(keys[i]) && Decrypt(k, file.vals[keys[i]]).Some? ==>
      DecryptVars(k, d0, file, keys[..i + 1]) == Success(Put(d, keys[i], Decrypt(k, file.vals[keys[i]])))
  {
    assert keys[..i + 1][..i] == keys[..i];
  }

  /** Once a prefix of the loop has failed, the whole loop fails. */
  lemma {:induction false} DecryptVarsFailureSticks(k: string, d0: Dictionary<Option<string>>, file: EnvObject,
                                                    keys: seq<string>, n: nat)
    requires n <= |keys| && forall x | x in keys :: x in file.vals
    requires DecryptVars(k, d0, file, keys[..n]).Failure?
    ensures DecryptVars(k, d0, file, keys).Failure?
  {
    if n < |keys| {
      assert keys[..|keys| - 1][..n] == keys[..n];
      DecryptVarsFailureSticks(k, d0, file, keys[..|keys| - 1], n);
    } else {
      assert keys[..n] == keys;
    }
  }

  /** The outcome of State.load on a file that passed read_file: the new
      state, and whether missing metadata makes it rewrite the file. */
  datatype Loaded = Loaded(state: Snapshot, rewrite: bool)

  function LoadFile(k: string, file: EnvObject, readEmpty: bool): (r: Result<Loaded, Error>)
    requires HasRequired(file)
    ensures r.Success? ==> r.value.state.name == file.vals[NAME] && KeysOk(r.value.state)
    ensures r.Success? ==> (r.value.state.decrypted <==> !readEmpty)
    ensures r.Success? && r.value.state.decrypted ==> Unlocked(r.value.state)
    ensures r.Success? && r.value.rewrite ==> r.value.state.decrypted
    ensures r.Failure? ==> !readEmpty && (r.error == InvalidKey || r.error == InvalidToken)
  {
    LockedFillShape(file.keys);
    DecryptVarsShape(k, file, file.keys);
    var name := file.vals[NAME];
    if readEmpty then
      Success(Loaded(Snapshot(name, None, None, None, None, LockedFill(Empty(), file.keys), false), false))
    else if Decrypt(k, file.vals[SIGNED_NAME]).None? then
      Failure(InvalidKey)
    else if Decrypt(k, file.vals[SECRET_KEY]).None? then
      Failure(InvalidToken)
    else
      match DecryptVars(k, Empty(), file, file.keys)
      case Failure(e) => Failure(e)
      case Success(d) =>
        var (meta, update) := ProcessFileUpdate(file);
        Success(Loaded(Snapshot(name, Some(meta.cryptoType), Some(meta.cryptoAlgorithm), Some(meta.version),
                                Decrypt(k, file.vals[SECRET_KEY]), d, true),
                       update))
  }

  /** The successful unlocked load, spelled out. */
  lemma LoadFileDecrypted(k: string, file: EnvObject, d: Dictionary<Option<string>>)
    requires HasRequired(file)
    requires Decrypt(k, file.vals[SIGNED_NAME]).Some? && Decrypt(k, file.vals[SECRET_KEY]).Some?
    requires DecryptVars(k, Empty(), file, file.keys) == Success(d)
    ensures var meta := ProcessFileUpdate(file).0;
      LoadFile(k, file, false) ==
        Success(Loaded(Snapshot(file.vals[NAME], Some(meta.cryptoType), Some(meta.cryptoAlgorithm),
                                Some(meta.version), Decrypt(k, file.vals[SECRET_KEY]), d, true),
                       ProcessFileUpdate(file).1))
  {
  }

  /** read_file followed by load, on the directory snapshot `files`. */
  function OpenFile(files: map<string, EnvObject>, filename: string, k: string, readEmpty: bool)
    : (r: Result<Loaded, Error>)
    ensures r.Success? ==> filename in files && HasRequired(files[filename])
    ensures r.Success? ==> KeysOk(r.value.state) && (r.value.state.decrypted <==> !readEmpty)
    ensures r.Success? && r.value.state.decrypted ==> Unlocked(r.value.state)
    ensures r.Success? && r.value.rewrite ==> r.value.state.decrypted
    ensures r.Failure? ==> r.error == InvalidEnvFile || r.error == InvalidKey || r.error == InvalidToken
    ensures r.Failure? && readEmpty ==> r.error == InvalidEnvFile
  {
    match ReadFile(files, filename)
    case Failure(e) => Failure(e)
    case Success(file) => LoadFile(k, file, readEmpty)
  }

  /** The key State.__init__ ends up with: the given one, else the KEY
      environment variable when reading it is allowed; without either the
      Encrypter is built from no key and fails. The cipher must accept it. */
  function ResolveKey(key: Option<string>, readFromEnv: bool, env: Option<string>): (r: Result<string, Error>)
    ensures r.Success? ==> ValidKey(r.value)
    ensures r.Success? && key.Some? ==> r.value == key.value
    ensures r.Success? && key.None? ==> readFromEnv && env == Some(r.value)
    ensures r.Failure? ==> (r.error == EnvKeyNotFound <==> key.None? && readFromEnv && env.None?)
    ensures r.Failure? ==> r.error == EnvKeyNotFound || r.error == InvalidKey
    ensures var kk := if key.Some? then key else if readFromEnv then env else None;
      kk.Some? && ValidKey(kk.value) ==> r == Success(kk.value)
  {
    if key.None? && readFromEnv && env.None? then Failure(EnvKeyNotFound)
    else
      var k := if key.Some? then key else if readFromEnv then env else None;
      if k.None? || !ValidKey(k.value) then Failure(InvalidKey) else Success(k.value)
  }

  /** State(filename, key=..., read_from_env=..., read_empty=...) on the
      directory snapshot `files`: key resolution, then read_file and load. */
  function OpenState(files: map<string, EnvObject>, filename: string, key: Option<string>, readFromEnv: bool,
                     env: Option<string>, readEmpty: bool): (r: Result<Loaded, Error>)
  {
    match ResolveKey(key, readFromEnv, env)
    case Failure(e) => Failure(e)
    case Success(k) => OpenFile(files, filename, k, readEmpty)
  }

  /** The directory after a load: the file is rewritten when the load asked for it. */
  function Rewritten(files: map<string, EnvObject>, filename: string, k: string, l: Loaded): map<string, EnvObject>
    requires l.rewrite ==> Unlocked(l.state)
  {
    if l.rewrite then files[filename := Serialize(k, l.state)] else files
  }

  /** A file without `name`, `signed_name` or `SECRET_KEY` is rejected with
      InvalidEnvFile in both modes and whatever the key. */
  lemma MissingRequiredKey(files: map<string, EnvObject>, filename: string, k: string, readEmpty: bool)
    requires filename in files
    requires NAME !in files[filename].vals || SIGNED_NAME !in files[filename].vals
             || SECRET_KEY !in files[filename].vals
    ensures OpenFile(files, filename, k, readEmpty) == Failure(InvalidEnvFile)
  {
  }

  /** A locked load records exactly the variable names of the file, in file
      order and without values, takes the name, and decrypts nothing. */
  lemma LoadLocked(k: string, file: EnvObject)
    requires HasRequired(file)
    ensures var r := LoadFile(k, file, true);
      && r.Success? && !r.value.rewrite
      && r.value.state.name == file.vals[NAME]
      && !r.value.state.decrypted && r.value.state.secret.None?
      && r.value.state.cryptoType.None? && r.value.state.cryptoAlgorithm.None? && r.value.state.version.None?
      && r.value.state.data.keys == Variables(file.keys)
      && forall x | x in r.value.state.data.vals :: r.value.state.data.vals[x] == None
  {
    LockedFillShape(file.keys);
  }

  /** An unlocked load fails with InvalidKey when the signed name does not
      decrypt (its plaintext is never compared with `name`), with the
      cipher's own InvalidToken when the secret does not decrypt, and with
      InvalidKey when a variable does not decrypt. Otherwise every variable
      of the file is held with its decrypted value, the metadata is the
      file's or the default, and a rewrite is due exactly when a default
      was used. */
  lemma LoadUnlocked(k: string, file: EnvObject)
    requires HasRequired(file)
    ensures var r := LoadFile(k, file, false);
      && (Decrypt(k, file.vals[SIGNED_NAME]).None? ==> r == Failure(InvalidKey))
      && ((Decrypt(k, file.vals[SIGNED_NAME]).Some? && Decrypt(k, file.vals[SECRET_KEY]).None?) ==>
            r == Failure(InvalidToken))
      && (Decrypt(k, file.vals[SIGNED_NAME]).Some? && Decrypt(k, file.vals[SECRET_KEY]).Some? ==>
            (r.Success? <==> forall x | x in Variables(file.keys) :: Decrypt(k, file.vals[x]).Some?))
      && (r.Failure? ==> r.error == InvalidKey || r.error == InvalidToken)
      && (Decrypt(k, file.vals[SIGNED_NAME]).Some? && Decrypt(k, file.vals[SECRET_KEY]).Some? && r.Failure? ==>
            r.error == InvalidKey)
      && (r.Success? ==>
            && r.value.state.decrypted
            && r.value.state.name == file.vals[NAME]
            && r.value.state.secret == Decrypt(k, file.vals[SECRET_KEY])
            && r.value.state.data.keys == Variables(file.keys)
            && (forall x | x in r.value.state.data.vals :: r.value.state.data.vals[x] == Decrypt(k, file.vals[x]))
            && r.value.state.cryptoType == Some(ProcessFileUpdate(file).0.cryptoType)
            && r.value.state.cryptoAlgorithm == Some(ProcessFileUpdate(file).0.cryptoAlgorithm)
            && r.value.state.version == Some(ProcessFileUpdate(file).0.version)
            && r.value.rewrite == ProcessFileUpdate(file).1)
  {
    DecryptVarsShape(k, file, file.keys);
  }

  // ---------------------------------------------------------------------
  // save and new

  /** The entries save writes before the variables, in its insertion order;
      the metadata is written in plaintext. */
  function Header(k: string, s: Snapshot): (r: EnvObject)
    requires Unlocked(s)
    ensures r.keys == [NAME, SIGNED_NAME, CRYPTO_TYPE, CRYPTO_ALGORITHM, VERSION, SECRET_KEY]
  {
    ReservedDiffer();
    Dict([NAME, SIGNED_NAME, CRYPTO_TYPE, CRYPTO_ALGORITHM, VERSION, SECRET_KEY],
         map[NAME := s.name, SIGNED_NAME := Encrypt(k, s.name),
             CRYPTO_TYPE := s.cryptoType.value, CRYPTO_ALGORITHM := s.cryptoAlgorithm.value,
             VERSION := s.version.value, SECRET_KEY := Encrypt(k, s.secret.value)])
  }

  /** The header holds exactly the reserved keys. */
  lemma HeaderKeys(k: string, s: Snapshot)
    requires Unlocked(s)
    ensures forall x :: x in Header(k, s).vals <==> IsReserved(x)
  {
  }

  /** The header's metadata and name are plaintext; the signed name and the
      secret are encrypted under the key. */
  lemma HeaderValues(k: string, s: Snapshot)
    requires Unlocked(s)
    ensures var h := Header(k, s);
      && h.vals[NAME] == s.name && h.vals[SIGNED_NAME] == Encrypt(k, s.name)
      && h.vals[CRYPTO_TYPE] == s.cryptoType.value && h.vals[CRYPTO_ALGORITHM] == s.cryptoAlgorithm.value
      && h.vals[VERSION] == s.version.value && h.vals[SECRET_KEY] == Encrypt(k, s.secret.value)
  {
    ReservedDiffer();
  }

  /** The six reserved keys are pairwise different (their lengths differ). */
  lemma ReservedDiffer()
    ensures NAME != SIGNED_NAME && NAME != SECRET_KEY && NAME != CRYPTO_TYPE && NAME != CRYPTO_ALGORITHM && NAME != VERSION
    ensures SIGNED_NAME != SECRET_KEY && SIGNED_NAME != CRYPTO_TYPE && SIGNED_NAME != CRYPTO_ALGORITHM && SIGNED_NAME != VERSION
    ensures SECRET_KEY != CRYPTO_TYPE && SECRET_KEY != CRYPTO_ALGORITHM && SECRET_KEY != VERSION
    ensures CRYPTO_TYPE != CRYPTO_ALGORITHM && CRYPTO_TYPE != VERSION && CRYPTO_ALGORITHM != VERSION
  {
    assert |NAME| == 4 && |SIGNED_NAME| == 11 && |SECRET_KEY| == 10;
    assert |CRYPTO_TYPE| == 12 && |CRYPTO_ALGORITHM| == 16 && |VERSION| == 7;
  }

  /** The variable loop of save over `keys`: each value is encrypted into `acc`. */
  function EncryptVars(k: string, acc: EnvObject, data: Dictionary<Option<string>>, keys: seq<string>): EnvObject
    requires forall x | x in keys :: x in data.vals && data.vals[x].Some?
  {
    if keys == [] then acc
    else
      var x := keys[|keys| - 1];
      Put(EncryptVars(k, acc, data, keys[..|keys| - 1]), x, Encrypt(k, data.vals[x].value))
  }
  /** One more variable of save's loop. */
  lemma EncryptVarsStep(k: string, acc: EnvObject, data: Dictionary<Option<string>>, keys: seq<string>, i: nat)
    requires i < |keys| && forall x | x in keys :: x in data.vals && data.vals[x].Some?
    ensures EncryptVars(k, acc, data, keys[..i + 1]) ==
      Put(EncryptVars(k, acc, data, keys[..i]), keys[i], Encrypt(k, data.vals[keys[i]].value))
  {
    assert keys[..i + 1][..i] == keys[..i];
  }


  /** The entries of save's variable loop: those already there and the variables. */
  lemma {:induction false} EncryptVarsHas(k: string, acc: EnvObject, data: Dictionary<Option<string>>, keys: seq<string>, x: string)
    requires forall y | y in keys :: y in data.vals && data.vals[y].Some?
    ensures x in EncryptVars(k, acc, data, keys).vals <==> x in acc.vals || x in keys
  {
    if keys != [] {
      EncryptVarsHas(k, acc, data, keys[..|keys| - 1], x);
    }
  }

  /** Each variable is written encrypted, and every other entry is kept. */
  lemma {:induction false} EncryptVarsAt(k: string, acc: EnvObject, data: Dictionary<Option<string>>, keys: seq<string>, x: string)
    requires forall y | y in keys :: y in data.vals && data.vals[y].Some?
    ensures x in keys ==>
      x in EncryptVars(k, acc, data, keys).vals && EncryptVars(k, acc, data, keys).vals[x] == Encrypt(k, data.vals[x].value)
    ensures x in acc.vals && x !in keys ==>
      x in EncryptVars(k, acc, data, keys).vals && EncryptVars(k, acc, data, keys).vals[x] == acc.vals[x]
  {
    EncryptVarsHas(k, acc, data, keys, x);
    if keys != [] {
      var keys' := keys[..|keys| - 1];
      EncryptVarsHas(k, acc, data, keys', x);
      EncryptVarsAt(k, acc, data, keys', x);
      if x != keys[|keys| - 1] {
        assert x in keys ==> x in keys';
      }
    }
  }

  /** Over a header that holds exactly the reserved names, the loop appends
      the variables in order, a reserved name keeping its place. */
  lemma {:induction false} EncryptVarsKeys(k: string, acc: EnvObject, data: Dictionary<Option<string>>, keys: seq<string>)
    requires NoDup(keys) && forall x | x in keys :: x in data.vals && data.vals[x].Some?
    requires forall x :: x in acc.vals <==> IsReserved(x)
    ensures EncryptVars(k, acc, data, keys).keys == acc.keys + Variables(keys)
  {
    if keys != [] {
      var keys' := keys[..|keys| - 1];
      var x := keys[|keys| - 1];
      assert NoDup(keys');
      assert x !in keys';
      EncryptVarsKeys(k, acc, data, keys');
      EncryptVarsHas(k, acc, data, keys', x);
      assert Variables(keys) == Variables(keys') + (if IsVariable(x) then [x] else []);
    }
  }

  lemma EncryptVarsShape(k: string, acc: EnvObject, data: Dictionary<Option<string>>, keys: seq<string>)
    requires NoDup(keys) && forall x | x in keys :: x in data.vals && data.vals[x].Some?
    requires forall x :: x in acc.vals <==> IsReserved(x)
    ensures var r := EncryptVars(k, acc, data, keys);
      && r.keys == acc.keys + Variables(keys)
      && (forall x :: x in r.vals <==> x in acc.vals || x in keys)
      && (forall x | x in keys :: r.vals[x] == Encrypt(k, data.vals[x].value))
      && (forall x | x in acc.vals && x !in keys :: r.vals[x] == acc.vals[x])
  {
    EncryptVarsKeys(k, acc, data, keys);
    forall x
      ensures x in EncryptVars(k, acc, data, keys).vals <==> x in acc.vals || x in keys
      ensures x in keys ==> EncryptVars(k, acc, data, keys).vals[x] == Encrypt(k, data.vals[x].value)
      ensures x in acc.vals && x !in keys ==> EncryptVars(k, acc, data, keys).vals[x] == acc.vals[x]
    {
      EncryptVarsAt(k, acc, data, keys, x);
    }
  }

  /** The object save writes for a decrypted state: the header, then the
      variables, dumped with sorted keys. */
  function Serialize(k: string, s: Snapshot): EnvObject
    requires Unlocked(s)
  {
    SortKeys(EncryptVars(k, Header(k, s), s.data, s.data.keys))
  }

  /** The shape of what save writes: the reserved entries and the
      variables, keys in ascending order; the variable values are encrypted,
      and a variable named SECRET_KEY (which add("secret_key", v) creates)
      overwrites the header's secret entry. */
  lemma SerializeShape(k: string, s: Snapshot)
    requires Unlocked(s) && KeysOk(s)
    ensures var f := Serialize(k, s);
      && Ascending(f.keys)
      && (forall x :: x in f.vals <==> IsReserved(x) || x in s.data.vals)
      && (forall x | x in s.data.vals :: f.vals[x] == Encrypt(k, s.data.vals[x].value))
      && (forall x | IsReserved(x) && x !in s.data.vals :: f.vals[x] == Header(k, s).vals[x])
  {
    HeaderKeys(k, s);
    EncryptVarsShape(k, Header(k, s), s.data, s.data.keys);
  }

  /** save writes the name and the metadata in plaintext. */
  lemma SavedPlaintext(k: string, s: Snapshot)
    requires Unlocked(s) && KeysOk(s)
    ensures var f := Serialize(k, s);
      && NAME in f.vals && f.vals[NAME] == s.name
      && CRYPTO_TYPE in f.vals && f.vals[CRYPTO_TYPE] == s.cryptoType.value
      && CRYPTO_ALGORITHM in f.vals && f.vals[CRYPTO_ALGORITHM] == s.cryptoAlgorithm.value
      && VERSION in f.vals && f.vals[VERSION] == s.version.value
  {
    HeaderValues(k, s);
    SavedFromHeader(k, s, NAME);
    SavedFromHeader(k, s, CRYPTO_TYPE);
    SavedFromHeader(k, s, CRYPTO_ALGORITHM);
    SavedFromHeader(k, s, VERSION);
  }

  /** A header entry that no variable overrides is written as the header
      has it. */
  lemma SavedFromHeader(k: string, s: Snapshot, x: string)
    requires Unlocked(s) && IsReserved(x) && x !in s.data.vals
    ensures x in Serialize(k, s).vals && Serialize(k, s).vals[x] == Header(k, s).vals[x]
  {
    HeaderKeys(k, s);
    EncryptVarsAt(k, Header(k, s), s.data, s.data.keys, x);
  }

  /** Under the key, the written signed name decrypts to the name, the
      secret entry to the secret (or to the variable SECRET_KEY when there
      is one), and every variable to its in-memory value. */
  lemma SavedCiphertexts(k: string, s: Snapshot)
    requires Unlocked(s) && KeysOk(s)
    ensures var f := Serialize(k, s);
      && SIGNED_NAME in f.vals && Decrypt(k, f.vals[SIGNED_NAME]) == Some(s.name)
      && SECRET_KEY in f.vals
      && Decrypt(k, f.vals[SECRET_KEY])
           == Some(if SECRET_KEY in s.data.vals then s.data.vals[SECRET_KEY].value else s.secret.value)
      && forall x | x in s.data.vals :: x in f.vals && Decrypt(k, f.vals[x]) == s.data.vals[x]
  {
    var f := Serialize(k, s);
    forall x | x in s.data.vals
      ensures x in f.vals && Decrypt(k, f.vals[x]) == s.data.vals[x]
    {
      SavedVariable(k, s, x);
    }
    assert SIGNED_NAME !in s.data.vals;
    SavedFromHeader(k, s, SIGNED_NAME);
    HeaderValues(k, s);
    RoundTrip(k, s.name, f.vals[SIGNED_NAME]);
    if SECRET_KEY in s.data.vals {
      SavedVariable(k, s, SECRET_KEY);
    } else {
      SavedFromHeader(k, s, SECRET_KEY);
      RoundTrip(k, s.secret.value, f.vals[SECRET_KEY]);
    }
  }

  /** A variable is written encrypted under the key. */
  lemma SavedVariable(k: string, s: Snapshot, x: string)
    requires Unlocked(s) && x in s.data.vals
    ensures x in Serialize(k, s).vals && Decrypt(k, Serialize(k, s).vals[x]) == s.data.vals[x]
  {
    EncryptVarsAt(k, Header(k, s), s.data, s.data.keys, x);
    RoundTrip(k, s.data.vals[x].value, Serialize(k, s).vals[x]);
  }

  /** The state a reload of what save wrote produces: everything as it was,
      except that a variable named SECRET_KEY has become the secret and the
      variables come back in sorted order. */
  function Reloaded(s: Snapshot): (r: Snapshot)
    requires Unlocked(s)
  {
    var secret := if SECRET_KEY in s.data.vals then s.data.vals[SECRET_KEY].value else s.secret.value;
    Snapshot(s.name, s.cryptoType, s.cryptoAlgorithm, s.version, Some(secret), SortKeys(Del(s.data, SECRET_KEY)), true)
  }

  /** The variables of what save writes are the state's less SECRET_KEY,
      sorted. */
  lemma SavedVariables(k: string, s: Snapshot)
    requires Unlocked(s) && KeysOk(s)
    ensures Variables(Serialize(k, s).keys) == SortStrings(Without(s.data.keys, SECRET_KEY))
  {
    var f := Serialize(k, s);
    var w := Without(s.data.keys, SECRET_KEY);
    SerializeShape(k, s);
    FilterAscending(f.keys, IsVariable);
    FilterNoDup(s.data.keys, x => x != SECRET_KEY);
    SortStringsAscending(w);
    forall x
      ensures x in Variables(f.keys) <==> x in SortStrings(w)
    {
      SortStringsMembers(w, x);
    }
    AscendingUnique(Variables(f.keys), SortStrings(w));
  }

  /** What save writes carries all three metadata entries, so loading it
      needs no migration. */
  lemma SavedMetadata(k: string, s: Snapshot)
    requires Unlocked(s) && KeysOk(s)
    ensures ProcessFileUpdate(Serialize(k, s))
         == (Metadata(s.cryptoType.value, s.cryptoAlgorithm.value, s.version.value), false)
  {
    SavedPlaintext(k, s);
  }

  /** Saving and then loading with the same key reproduces the name, the
      metadata, the secret and the variables with their values, now in sorted
      order, and asks for no further rewrite; the one exception is a variable
      named SECRET_KEY, which replaces the secret. */
  lemma SaveThenLoad(k: string, s: Snapshot)
    requires Unlocked(s) && KeysOk(s)
    ensures HasRequired(Serialize(k, s))
    ensures LoadFile(k, Serialize(k, s), false) == Success(Loaded(Reloaded(s), false))
  {
    var f := Serialize(k, s);
    SerializeShape(k, s);
    SavedCiphertexts(k, s);
    SavedVariables(k, s);
    SavedMetadata(k, s);
    SavedPlaintext(k, s);
    LoadUnlocked(k, f);
    var r := LoadFile(k, f, false);
    assert r.Success?;
    var d := r.value.state.data;
    var e := SortKeys(Del(s.data, SECRET_KEY));
    assert d.keys == e.keys;
    SameDict(d, e);
  }

  /** The entries State.new puts in a fresh file. */
  function NewEntries(k: string, name: string, secret: string): map<string, string>
  {
    map[NAME := name, CRYPTO_TYPE := DEFAULT_FAMILY, CRYPTO_ALGORITHM := DEFAULT_ALGORITHM,
        VERSION := CURRENT_VERSION, SIGNED_NAME := Encrypt(k, name), SECRET_KEY := Encrypt(k, secret)]
  }

  /** The object State.new writes for a new environment, dumped with
      sorted keys. */
  function NewFile(k: string, name: string, secret: string): EnvObject
  {
    var keys := [NAME, CRYPTO_TYPE, CRYPTO_ALGORITHM, VERSION, SIGNED_NAME, SECRET_KEY];
    ReservedDiffer();
    SortKeys(Dict(keys, NewEntries(k, name, secret)))
  }

  /** A new file holds only reserved keys. */
  lemma NewFileReserved(k: string, name: string, secret: string)
    ensures forall x | x in NewFile(k, name, secret).keys :: IsReserved(x)
  {
    assert NewFile(k, name, secret).vals == NewEntries(k, name, secret);
  }

  /** The fields of a new file, one by one. */
  lemma NewFileFields(k: string, name: string, secret: string)
    ensures var f := NewFile(k, name, secret);
      && f.vals[NAME] == name && f.vals[SIGNED_NAME] == Encrypt(k, name) && f.vals[SECRET_KEY] == Encrypt(k, secret)
      && f.vals[CRYPTO_TYPE] == DEFAULT_FAMILY && f.vals[CRYPTO_ALGORITHM] == DEFAULT_ALGORITHM
      && f.vals[VERSION] == CURRENT_VERSION
  {
    var m := NewEntries(k, name, secret);
    assert NewFile(k, name, secret).vals == m;
    ReservedDiffer();
    assert m[NAME] == name && m[SIGNED_NAME] == Encrypt(k, name) && m[SECRET_KEY] == Encrypt(k, secret);
    assert m[CRYPTO_TYPE] == DEFAULT_FAMILY && m[CRYPTO_ALGORITHM] == DEFAULT_ALGORITHM && m[VERSION] == CURRENT_VERSION;
  }

  /** A new environment loads under its key as decrypted, with the given
      name and secret, the current metadata, no variables, and no rewrite. */
  lemma NewThenLoad(k: string, name: string, secret: string)
    ensures HasRequired(NewFile(k, name, secret))
    ensures LoadFile(k, NewFile(k, name, secret), false)
         == Success(Loaded(Snapshot(name, Some(DEFAULT_FAMILY), Some(DEFAULT_ALGORITHM), Some(CURRENT_VERSION),
                                    Some(secret), Empty(), true), false))
  {
    var f := NewFile(k, name, secret);
    NewFileReserved(k, name, secret);
    NewFileFields(k, name, secret);
    RoundTrip(k, name, f.vals[SIGNED_NAME]);
    RoundTrip(k, secret, f.vals[SECRET_KEY]);
    assert forall x | x in f.keys :: IsReserved(x);
    DecryptVarsReserved(k, Empty(), f, f.keys);
    LoadFileDecrypted(k, f, Empty());
  }

  /** Reserved keys are skipped by the decrypting loop. */
  lemma {:induction false} DecryptVarsReserved(k: string, d0: Dictionary<Option<string>>, file: EnvObject,
                                               keys: seq<string>)
    requires forall x | x in keys :: x in file.vals && IsReserved(x)
    ensures DecryptVars(k, d0, file, keys) == Success(d0)
  {
    if keys != [] {
      DecryptVarsReserved(k, d0, file, keys[..|keys| - 1]);
    }
  }
}
