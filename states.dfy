/** The State class of envcrypto/state.py: one environment file loaded into
    memory, its variables changed in place and written back. The directory
    the files live in is a FileSystem object; writing a file is assignment
    to its map. */
module States {
  import opened Wrappers
  import opened Exceptions
  import opened Cipher
  import opened Dicts
  import opened EnvFile

  /** The working directory: file name to parsed JSON object (a name that is
      absent cannot be opened or parsed). */
  class FileSystem {
    var files: map<string, EnvObject>

    constructor (files: map<string, EnvObject>)
      ensures this.files == files
    {
      this.files := files;
    }
  }

  class State {
    const fs: FileSystem
    const filename: string
    const key: string
    var name: string
    var cryptoType: Option<string>
    var cryptoAlgorithm: Option<string>
    var version: Option<string>
    var secret: Option<string>
    var data: Dictionary<Option<string>>
    var decrypted: bool

    /** The fields as a value. */
    function View(): Snapshot
      reads this
    {
      Snapshot(name, cryptoType, cryptoAlgorithm, version, secret, data, decrypted)
    }

    ghost predicate Valid()
      reads this
    {
      ValidKey(key) && KeysOk(View()) && (decrypted ==> Unlocked(View()))
    }

    /** The field initialisation of __init__, for a key the cipher accepted. */
    constructor Init(fs: FileSystem, filename: string, key: string)
      requires ValidKey(key)
      ensures this.fs == fs && this.filename == filename && this.key == key
      ensures View() == Initial() && Valid()
    {
      this.fs := fs;
      this.filename := filename;
      this.key := key;
      name := "";
      cryptoType, cryptoAlgorithm, version, secret := None, None, None, None;
      data := Empty();
      decrypted := false;
    }

    /** State(filename, key=key, read_from_env=readFromEnv, read_empty=readEmpty),
        with `env` the value of the KEY environment variable. */
    static method Open(fs: FileSystem, filename: string, key: Option<string>, readFromEnv: bool,
                       env: Option<string>, readEmpty: bool) returns (r: Result<State, Error>)
      modifies fs
      ensures var spec := OpenState(old(fs.files), filename, key, readFromEnv, env, readEmpty);
        && (r.Failure? <==> spec.Failure?)
        && (r.Failure? ==> r.error == spec.error && fs.files == old(fs.files))
        && (r.Success? ==>
              && fresh(r.value) && r.value.Valid()
              && r.value.fs == fs && r.value.filename == filename
              && r.value.key == ResolveKey(key, readFromEnv, env).value
              && r.value.View() == spec.value.state
              && fs.files == Rewritten(old(fs.files), filename, r.value.key, spec.value))
    {
      var k := ResolveKey(key, readFromEnv, env);
      if k.Failure? {
        return Failure(k.error);
      }
      var s := new State.Init(fs, filename, k.value);
      var o := s.Load(readEmpty);
      if o.Fail? {
        return Failure(o.error);
      }
      return Success(s);
    }

    /** load: read and validate the file, then either record the variable
        names only (locked) or verify the signed name and decrypt everything,
        adopting default metadata and rewriting the file when it lacked any.
        Only the load that __init__ performs on a fresh State is modelled. */
    method Load(readEmpty: bool) returns (o: Outcome<Error>)
      requires Valid() && View() == Initial()
      modifies this, fs
      ensures var spec := OpenFile(old(fs.files), filename, key, readEmpty);
        && (o.Fail? <==> spec.Failure?)
        && (o.Fail? ==> o.error == spec.error && fs.files == old(fs.files))
        && (o.Pass? ==>
              && Valid()
              && View() == spec.value.state
              && fs.files == Rewritten(old(fs.files), filename, key, spec.value))
    {
      var rf := ReadFile(fs.files, filename);
      if rf.Failure? {
        return Fail(rf.error);
      }
      var file := rf.value;
      ghost var spec := LoadFile(key, file, readEmpty);
      assert OpenFile(fs.files, filename, key, readEmpty) == spec;
      assert data == Empty();
      name := file.vals[NAME];
      if readEmpty {
        LoadData(file);
        assert spec == Success(Loaded(View(), false));
        return Pass;
      }
      if Decrypt(key, file.vals[SIGNED_NAME]).None? {
        assert spec == Failure(InvalidKey);
        return Fail(InvalidKey);
      }
      var update;
      o, update := Unlock(file);
      if o.Fail? {
        return;
      }
      if decrypted && update {
        // update(): a logged warning, then save
        var saved := Save();
      }
    }

    /** The rest of load once the signed name verified: the State is marked
        decrypted, the secret and the variables are decrypted, and the
        metadata is adopted; `update` says whether any of it was defaulted. */
    method Unlock(file: EnvObject) returns (o: Outcome<Error>, update: bool)
      requires HasRequired(file) && Decrypt(key, file.vals[SIGNED_NAME]).Some?
      requires ValidKey(key) && name == file.vals[NAME] && data == Empty()
      modifies this`decrypted, this`data, this`secret, this`cryptoType, this`cryptoAlgorithm, this`version
      ensures o.Fail? <==> LoadFile(key, file, false).Failure?
      ensures o.Fail? ==> o.error == LoadFile(key, file, false).error
      ensures o.Pass? ==> View() == LoadFile(key, file, false).value.state
      ensures o.Pass? ==> update == LoadFile(key, file, false).value.rewrite
      ensures o.Pass? ==> Valid()
    {
      ghost var spec := LoadFile(key, file, false);
      decrypted := true;
      o := LoadAndDecryptData(file);
      ghost var vars := DecryptVars(key, Empty(), file, file.keys);
      if o.Fail? {
        assert spec == Failure(o.error);
        return o, false;
      }
      LoadFileDecrypted(key, file, data);
      var processed := ProcessFileUpdate(file);
      var meta := processed.0;
      update := processed.1;
      cryptoType := Some(meta.cryptoType);
      cryptoAlgorithm := Some(meta.cryptoAlgorithm);
      version := Some(meta.version);
    }

    /** load_data: the variable names of the file, without values. */
    method LoadData(file: EnvObject)
      modifies this`data
      ensures data == LockedFill(old(data), file.keys)
    {
      var i := 0;
      while i < |file.keys|
        invariant 0 <= i <= |file.keys|
        invariant data == LockedFill(old(data), file.keys[..i])
      {
        LockedFillStep(old(data), file.keys, i);
        var k := file.keys[i];
        if !IsReserved(k) {
          data := Put(data, k, None);
        }
        i := i + 1;
      }
      assert file.keys[..i] == file.keys;
    }

    /** load_and_decrypt_data: the secret (whose failure is the cipher's own
        exception, not mapped to InvalidKey), then every variable (whose failure is
        InvalidKey). */
    method LoadAndDecryptData(file: EnvObject) returns (o: Outcome<Error>)
      requires HasRequired(file)
      modifies this`data, this`secret
      ensures Decrypt(key, file.vals[SECRET_KEY]).None? ==> o == Fail(InvalidToken)
      ensures Decrypt(key, file.vals[SECRET_KEY]).Some? ==>
        var spec := DecryptVars(key, old(data), file, file.keys);
        && secret == Decrypt(key, file.vals[SECRET_KEY])
        && (o.Fail? <==> spec.Failure?)
        && (o.Fail? ==> o.error == InvalidKey)
        && (o.Pass? ==> data == spec.value)
    {
      var s := Decrypt(key, file.vals[SECRET_KEY]);
      if s.None? {
        return Fail(InvalidToken);
      }
      secret := s;
      var i := 0;
      while i < |file.keys|
        invariant 0 <= i <= |file.keys|
        invariant secret == s
        invariant DecryptVars(key, old(data), file, file.keys[..i]) == Success(data)
      {
        DecryptVarsStep(key, old(data), file, file.keys, i, data);
        var k := file.keys[i];
        if !IsReserved(k) {
          var v := Decrypt(key, file.vals[k]);
          if v.None? {
            DecryptVarsFailureSticks(key, old(data), file, file.keys, i + 1);
            return Fail(InvalidKey);
          }
          data := Put(data, k, v);
        }
        i := i + 1;
      }
      assert file.keys[..i] == file.keys;
      return Pass;
    }

    /** check_decrypted: only a State whose signed name verified may be saved. */
    function CheckDecrypted(): (o: Outcome<Error>)
      reads this
      ensures o.Fail? <==> !decrypted
      ensures o.Fail? ==> o.error == InvalidKey
    {
      if decrypted then Pass else Fail(InvalidKey)
    }

    /** save: refuse unless decrypted, then write the metadata, the signed
        name, the secret and every variable, encrypted under the key. */
    method Save() returns (o: Outcome<Error>)
      requires Valid()
      modifies fs
      ensures o.Fail? <==> !decrypted
      ensures o.Fail? ==> o.error == InvalidKey && fs.files == old(fs.files)
      ensures o.Pass? ==> fs.files == old(fs.files)[filename := Serialize(key, View())]
    {
      o := CheckDecrypted();
      if o.Fail? {
        return;
      }
      var result := Header(key, View());
      var i := 0;
      while i < |data.keys|
        invariant 0 <= i <= |data.keys|
        invariant result == EncryptVars(key, Header(key, View()), data, data.keys[..i])
        invariant fs.files == old(fs.files)
      {
        EncryptVarsStep(key, Header(key, View()), data, data.keys, i);
        var k := data.keys[i];
        result := Put(result, k, Encrypt(key, data.vals[k].value));
        i := i + 1;
      }
      assert data.keys[..i] == data.keys;
      // json.dumps(result, sort_keys=True)
      fs.files := fs.files[filename := SortKeys(result)];
    }

    /** add: the name is upper-cased; an existing variable is only replaced
        when `force` is set. */
    method Add(k: string, value: string, force: bool) returns (o: Outcome<Error>)
      requires Valid()
      modifies this`data
      ensures Valid()
      ensures o.Fail? <==> !force && Upper(k) in old(data.vals)
      ensures o.Fail? ==> o.error == VariableExists && data == old(data)
      ensures o.Pass? ==> data == Put(old(data), Upper(k), Some(value))
    {
      var u := Upper(k);
      UpperNameIsVariableOrSecret(k);
      if force {
        data := Put(data, u, Some(value));
        return Pass;
      }
      if u in data.vals {
        return Fail(VariableExists);
      }
      data := Put(data, u, Some(value));
      return Pass;
    }

    /** remove: the name is upper-cased and must be present. */
    method Remove(k: string) returns (o: Outcome<Error>)
      requires Valid()
      modifies this`data
      ensures Valid()
      ensures o.Fail? <==> Upper(k) !in old(data.vals)
      ensures o.Fail? ==> o.error == VariableNotFound && data == old(data)
      ensures o.Pass? ==> data == Del(old(data), Upper(k))
    {
      var u := Upper(k);
      if u !in data.vals {
        return Fail(VariableNotFound);
      }
      data := Del(data, u);
      return Pass;
    }

    /** State.new(name): a fresh file with the current metadata, the signed
        name and a fresh secret, written as `<name>.env` and loaded with the
        new key. The random key and secret are parameters. */
    static method New(fs: FileSystem, name: string, key: string, secret: string) returns (s: State)
      requires ValidKey(key)
      requires |secret| == SECRET_SIZE && forall i | 0 <= i < |secret| :: secret[i] in CHAR_LIST
      modifies fs
      ensures fresh(s) && s.Valid() && s.fs == fs && s.key == key
      ensures s.filename == name + "." + FILE_EXTENSION
      ensures s.View() == Snapshot(name, Some(DEFAULT_FAMILY), Some(DEFAULT_ALGORITHM), Some(CURRENT_VERSION),
                                   Some(secret), Empty(), true)
      ensures fs.files == old(fs.files)[name + "." + FILE_EXTENSION := NewFile(key, name, secret)]
    {
      var filename := name + "." + FILE_EXTENSION;
      fs.files := fs.files[filename := NewFile(key, name, secret)];
      NewThenLoad(key, name, secret);
      ghost var loaded := Loaded(Snapshot(name, Some(DEFAULT_FAMILY), Some(DEFAULT_ALGORITHM), Some(CURRENT_VERSION),
                                          Some(secret), Empty(), true), false);
      assert ReadFile(fs.files, filename) == Success(NewFile(key, name, secret));
      assert OpenState(fs.files, filename, Some(key), true, None, false) == Success(loaded);
      var r := Open(fs, filename, Some(key), true, None, false);
      s := r.value;
    }
  }
}
