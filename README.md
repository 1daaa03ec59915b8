# django-envcrypto's environment store, in Dafny

This project models the core of django-envcrypto, `envcrypto/state.py`. That file has two classes:

- **`State`** is one encrypted environment file (a "deployment level"). A file is a flat JSON object of strings with six reserved keys:
  - `name`, which is plaintext;
  - `signed_name`, the name encrypted under the level's key;
  - `SECRET_KEY`, Django's secret, encrypted;
  - the metadata `cryto_family`, `crypto_algorithm` and `version`, all plaintext.

  Every other key is a user variable holding a ciphertext.

  A State is loaded either unlocked or locked:
  - Unlocked: the signed name must decrypt, and then the secret and every variable are decrypted. Missing metadata is defaulted and the file is rewritten.
  - Locked (`read_empty`): only the variable names are recorded.

  Variables are added and removed in memory. `save` writes the file back, keys sorted, and refuses unless the State was unlocked.
- **`StateList`** opens every candidate file with one key. It falls back to a locked load when the key does not fit, and keeps every State. The last file the key unlocks becomes the active level. It can also report which variables are missing from which levels.

The files:

| File | Contents |
|---|---|
| `wrappers.dfy` | `Option`, `Result`, and `Outcome` (the result of an operation that returns nothing, or the exception it raised) |
| `exceptions.dfy` | The exception classes as one datatype |
| `cipher.dfy` | A stand-in for the `Encrypter`'s cipher |
| `dicts.dfy` | Python's insertion-ordered `dict`, and the key order `json.dumps(..., sort_keys=True)` writes |
| `envfile.dfy` | The file format and the value-level meaning of every State operation. These functions are the specification |
| `states.dfy` | The `State` class. Fields are updated in place, and the directory is a `FileSystem` object whose map the methods reassign |
| `statelists.dfy` | The `StateList` class, and its listing and checking logic as functions |

Each method is proved against the functions in `envfile.dfy` and `statelists.dfy`. The lemmas beside those functions state what the source promises:

- **Round trips:** save then load, and new then load.
- **Loading:** what a locked load and an unlocked load hold.
- **Active level:** it is the last file the key unlocks.
- **Consistency check:** a warning lists exactly the States that lack a variable.

The cipher is a concrete stand-in, `Encrypt(k, m) = k + m`. The model proves the two laws the store relies on:

- decryption under the same key returns the plaintext;
- a ciphertext made under a different well-formed key does not decrypt.

Behaviour of the code that the model reproduces as written:

- **Signed name:** the code only checks that the signed name decrypts (`envcrypto/state.py:171`). It never compares the result with `name`.
- **`check_variables`:**
  - It collects names from every State, locked ones included.
    A locked State records its variable names, so it takes part (`envcrypto/state.py:317-327`).
  - Under `raise_on_warning` it raises at the first warning, after logging only that one (`envcrypto/state.py:332-337`).
- **Metadata:** `cryto_family`, `crypto_algorithm` and `version` are written in plaintext (`envcrypto/state.py:202-204`).
- **Unreadable secret:** the decrypt of the secret is not guarded (`envcrypto/state.py:143-144`). Its failure is the cipher's own exception: `InvalidToken`, or `binascii.Error` for a malformed digest (`envcrypto/crypto.py:27`). `read_list` catches neither (`envcrypto/state.py:307`). The model represents both as one error, `InvalidToken`, distinct from `InvalidKey`.
- **`VariableMissing`:** `state.py` imports `VariableMissing` (`envcrypto/state.py:9-11`), but `envcrypto/exceptions.py` does not define it. As written, the import raises `ImportError`, so neither `state.py` nor the package that imports it can be loaded. The model assumes the class exists and treats it as an exception like the others.
- **`add("secret_key", v)`:** this stores a variable `SECRET_KEY`. On save it overwrites the secret entry (`envcrypto/state.py:206-209`), and a reload turns it into the secret (`EnvFile.Reloaded`).

## Model

| member | source | states |
|---|---|---|
| Cipher.Decrypt | envcrypto/crypto.py:25-28 | a successful decrypt returns the plaintext that the ciphertext was made from under that key |
| Cipher.RoundTrip | envcrypto/crypto.py:20-28 | decrypting under `k` gives `m` exactly when the ciphertext is the encryption of `m` under `k` |
| Cipher.WrongKey | envcrypto/crypto.py:16-28 | a ciphertext made under one valid key never decrypts under a different valid key |
| Dicts.Put | envcrypto/state.py:222 | `d[k] = v`: the value of `k` becomes `v`, an existing key keeps its place and a new key is appended |
| Dicts.Del | envcrypto/state.py:251 | `del d[k]`: `k` is gone and the other keys keep their values and their order |
| Dicts.PutThenDel | envcrypto/state.py:217-251 | adding a new variable and removing it again gives back the same dict, order included |
| Dicts.SortKeys | envcrypto/state.py:213 | the dumped object has the same entries, keys in strictly ascending order of Python string comparison |
| Dicts.SortStringsAscending | envcrypto/state.py:213 | sorting distinct keys yields them in ascending order |
| Dicts.SortStringsMembers | envcrypto/state.py:213 | sorting keeps exactly the same keys |
| Dicts.AscendingUnique | envcrypto/state.py:213 | two ascending key sequences with the same keys are equal, so the sorted order is unique |
| Dicts.Items | envcrypto/state.py:242-243 | the items are the keys in order, each with its value, and a key is present exactly when some item has it |
| EnvFile.Variables | envcrypto/state.py:156-158 | the variable names of a key sequence are exactly its non-reserved keys |
| EnvFile.Upper | envcrypto/state.py:220 | upper-casing keeps the length and leaves no lower-case ASCII letter |
| EnvFile.UpperNameIsVariableOrSecret | envcrypto/state.py:217-228 | an upper-cased name is never a lower-case metadata key: `add` creates a variable, or else `SECRET_KEY` |
| EnvFile.ReadFile | envcrypto/state.py:103-116 | reading succeeds exactly when the file parses and has `name`, `signed_name` and `SECRET_KEY`, and otherwise fails with InvalidEnvFile |
| EnvFile.ProcessFileUpdate | envcrypto/state.py:118-139 | each metadata field is the file's value or its default; an update is due exactly when a field was absent |
| EnvFile.Snapshot.Iter | envcrypto/state.py:230-234 | iteration yields the secret under `SECRET_KEY` first, then each variable once in dict order: one pair more than there are variables |
| EnvFile.Snapshot.Get | envcrypto/state.py:240-243 | `get` yields only the variables, each once in dict order, and a name is yielded exactly when it is a variable |
| EnvFile.IterNamesOfIter | envcrypto/state.py:230-234 | the names list is the first components of the iteration |
| EnvFile.ContainsMatchesIter | envcrypto/state.py:230-238 | `name in state` holds exactly for the names that iteration yields (SECRET_KEY or a variable, no upper-casing) |
| EnvFile.LockedFillShape | envcrypto/state.py:154-158 | from no variables, `load_data` records exactly the file's non-reserved keys, in file order, all without a value |
| EnvFile.DecryptVars | envcrypto/state.py:147-152 | the variable loop of `load_and_decrypt_data` fails only with InvalidKey |
| EnvFile.DecryptVarsShape | envcrypto/state.py:146-152 | the loop succeeds exactly when every variable decrypts; it then holds every variable, in file order, with its decrypted value |
| EnvFile.DecryptVarsFailureSticks | envcrypto/state.py:149-152 | once one variable failed to decrypt, the whole load fails |
| EnvFile.LoadFile | envcrypto/state.py:160-183 | a load keeps the file's name and only legal variable names; it is decrypted exactly when not `read_empty`; a decrypted load knows every value; a rewrite only follows a decrypted load; a locked load never fails |
| EnvFile.OpenFile | envcrypto/state.py:160-168 | opening fails only with InvalidEnvFile, InvalidKey or InvalidToken, and in locked mode only with InvalidEnvFile |
| EnvFile.ResolveKey | envcrypto/state.py:92-99 | the key is the given one, else the KEY environment variable when reading it is allowed, and such a key is used whenever the cipher accepts it; EnvKeyNotFound exactly when neither exists and reading is allowed; a key the cipher rejects gives InvalidKey |
| EnvFile.MissingRequiredKey | envcrypto/state.py:111-114 | a file lacking a required key is rejected with InvalidEnvFile in both modes, whatever the key |
| EnvFile.LoadLocked | envcrypto/state.py:163-168 | a locked load succeeds with the name, exactly the variable names of the file without values, nothing decrypted and no rewrite |
| EnvFile.LoadUnlocked | envcrypto/state.py:170-183 | an unlocked load fails with InvalidKey on the signed name, InvalidToken on the secret, InvalidKey on a variable; otherwise it holds every variable with its decrypted value, the secret, the file's or default metadata, and a rewrite exactly when a default was used |
| EnvFile.Header | envcrypto/state.py:199-206 | save writes the header entries in the order name, signed name, family, algorithm, version, secret |
| EnvFile.HeaderKeys | envcrypto/state.py:199-206 | the header holds exactly the reserved keys |
| EnvFile.HeaderValues | envcrypto/state.py:199-206 | the name and metadata are written in plaintext; the signed name and the secret are encrypted under the key |
| EnvFile.EncryptVarsShape | envcrypto/state.py:208-209 | save's loop appends the variables in order, writes each one encrypted, and keeps every header entry it does not override |
| EnvFile.SerializeShape | envcrypto/state.py:196-213 | the written object has ascending keys, exactly the reserved keys and the variables, every variable encrypted, and every header entry that no variable overrides |
| EnvFile.SavedPlaintext | envcrypto/state.py:200-204 | the name and the three metadata fields are written in plaintext |
| EnvFile.SavedCiphertexts | envcrypto/state.py:201-209 | under the key, the signed name decrypts to the name, the secret entry to the secret (or to a variable SECRET_KEY), and every variable to its value |
| EnvFile.SavedVariable | envcrypto/state.py:208-209 | each variable is written so that it decrypts to its value under the key |
| EnvFile.SavedFromHeader | envcrypto/state.py:199-209 | a header entry that no variable overrides is written as the header has it |
| EnvFile.SavedVariables | envcrypto/state.py:208-213 | the variable names of the written file are the State's variables less SECRET_KEY, sorted |
| EnvFile.SavedMetadata | envcrypto/state.py:202-204 | a saved file carries all metadata, so reloading it needs no migration |
| EnvFile.SaveThenLoad | envcrypto/state.py:160-215 | saving then loading with the same key reproduces name, metadata, secret and variables and asks for no rewrite; a variable SECRET_KEY becomes the secret, and the variables come back sorted |
| EnvFile.NewFileReserved | envcrypto/state.py:53-63 | a new file holds only reserved keys |
| EnvFile.NewFileFields | envcrypto/state.py:53-63 | a new file holds the name, the default metadata and the current version in plaintext, and the signed name and secret encrypted under the new key |
| EnvFile.NewThenLoad | envcrypto/state.py:48-72 | a new file loads under its key as decrypted, with the name, the secret, the current metadata, no variables and no rewrite |
| States.State.Init | envcrypto/state.py:82-90 | the fields start empty: no metadata, no secret, no variables, not decrypted |
| States.State.Open | envcrypto/state.py:74-101 | constructing a State fails exactly as key resolution then read_file and load fail; on success the State is the loaded one and the directory is rewritten only when the load asked for it |
| States.State.Load | envcrypto/state.py:160-183 | load on a fresh State fails exactly as read_file and load fail, leaving the directory alone; otherwise the State is the loaded one and the file is saved back exactly when metadata was defaulted |
| States.State.Unlock | envcrypto/state.py:170-183 | after the signed name verified, the fields become those of the unlocked load, and `update` says whether a rewrite is due |
| States.State.LoadData | envcrypto/state.py:154-158 | the loop puts every non-reserved key of the file into `data` without a value |
| States.State.LoadAndDecryptData | envcrypto/state.py:141-152 | a secret that does not decrypt raises InvalidToken; otherwise the secret is set and the loop fails with InvalidKey exactly when a variable does not decrypt, else `data` holds every decrypted variable |
| States.State.CheckDecrypted | envcrypto/state.py:185-189 | fails with InvalidKey exactly when the State is not decrypted |
| States.State.Save | envcrypto/state.py:196-215 | fails with InvalidKey and writes nothing unless decrypted; otherwise writes the serialised State to its file and nothing else |
| States.State.Add | envcrypto/state.py:217-228 | upper-cases the name; fails with VariableExists exactly when not forced and already present, changing nothing; otherwise sets exactly that one entry |
| States.State.Remove | envcrypto/state.py:245-251 | upper-cases the name; fails with VariableNotFound exactly when absent; otherwise deletes exactly that one entry, keeping the order of the rest |
| States.State.New | envcrypto/state.py:48-72 | writes `<name>.env` with the new file and returns the State loaded from it: decrypted, the name, the secret, the current metadata and no variables |
| StateLists.ListVisits | envcrypto/state.py:303-311 | the loop keeps one State per file, and the active position is a decrypted one |
| StateLists.ListVisitsView | envcrypto/state.py:303-311 | each position of a successful listing holds what opening that file gave |
| StateLists.ListVisitsFailureAt | envcrypto/state.py:303-311 | a failed listing failed at some file, with that file's error |
| StateLists.ListVisitsDecryptedSeen | envcrypto/state.py:305-306 | every decrypted State is at or before the active position |
| StateLists.ListVisitsCurrentIsLast | envcrypto/state.py:305-306 | no State after the active position is decrypted |
| StateLists.LockedFallback | envcrypto/state.py:307-309 | a file that fails only because of the key can always be opened locked, and is then not decrypted |
| StateLists.VisitFile | envcrypto/state.py:304-309 | a file is kept exactly when the key unlocks it or it fails with InvalidKey; it is decrypted exactly when the key unlocks it; any other error is passed on |
| StateLists.OpenFileLocal | envcrypto/state.py:304-309 | opening a file depends on that file only |
| StateLists.ListFiles | envcrypto/state.py:299-311 | a listing fails only with InvalidEnvFile or InvalidToken |
| StateLists.RewritesUntouched | envcrypto/state.py:303-311 | a listing creates and removes no file and rewrites only listed files |
| StateLists.NextFileUnchanged | envcrypto/state.py:303-311 | with each file listed once, earlier rewrites do not change what opening the next file gives |
| StateLists.ListFilesViews | envcrypto/state.py:299-311 | the listing succeeds exactly when every file can be visited, and then holds one State per file, in order, unlocked or else locked |
| StateLists.ListFilesCurrent | envcrypto/state.py:303-306 | the active level is a file the key unlocks, and no later file is one |
| StateLists.ListFilesNoCurrent | envcrypto/state.py:303-306 | a listing has no active level exactly when the key unlocks no file |
| StateLists.ListFilesConsistent | envcrypto/state.py:303-311 | every listed State keeps the State invariant |
| StateLists.CreateList | envcrypto/state.py:257-290 | no active level exactly when there is no key and no raise, and the list is then empty; EnvKeyNotFound exactly when there is no key and raising; InvalidKey for any key the cipher rejects, and only with a key |
| StateLists.NoLevelFound | envcrypto/state.py:286-290 | with a valid key the constructor raises DeploymentLevelNotFound exactly when every file is listable and the key unlocks none |
| StateLists.AddNames | envcrypto/state.py:317-320 | adding names keeps the earlier ones as a prefix, has exactly the old and the new names, and repeats none |
| StateLists.Collect | envcrypto/state.py:316-320 | the collected names repeat none |
| StateLists.CollectMembers | envcrypto/state.py:316-320 | a name is collected exactly when some State's iteration yields it |
| StateLists.MissingIn | envcrypto/state.py:324-327 | the missing list has at most one entry per State |
| StateLists.MissingInEmpty | envcrypto/state.py:323-328 | a name's missing list is empty exactly when every State contains it |
| StateLists.MissingInSound | envcrypto/state.py:323-328 | each name in a missing list is that of a State lacking the variable |
| StateLists.MissingInComplete | envcrypto/state.py:323-328 | every State lacking the variable is in its missing list |
| StateLists.Reported | envcrypto/state.py:332-337 | no more warnings than names offered |
| StateLists.ReportedOnce | envcrypto/state.py:332-337 | with each name offered once, as the keys of the `missing` dict are, no name is warned about twice |
| StateLists.ReportedMembers | envcrypto/state.py:332-335 | a warning is logged exactly for each name whose missing list is non-empty, with that list |
| StateLists.ReportedFirst | envcrypto/state.py:332-337 | the first name with a non-empty missing list gives the first warning |
| StateLists.CheckVariablesSpec | envcrypto/state.py:313-337 | VariableMissing exactly when raising and some warning exists, after logging only the first warning; otherwise every warning is logged and nothing is raised |
| StateLists.WarningsSpec | envcrypto/state.py:313-337 | a warning names a collected name with exactly the States lacking it, and every collected name some State lacks is warned about |
| StateLists.SecretNeverReported | envcrypto/state.py:318-327 | SECRET_KEY, which every State contains, is never reported |
| StateLists.SameVariablesNoWarning | envcrypto/state.py:313-337 | States with the same variable names produce no warning |
| StateLists.ViewsOfPointwise | envcrypto/state.py:311 | a list of States whose values match a listing position by position has exactly that listing's values |
| StateLists.StateList.Create | envcrypto/state.py:257-290 | the constructor fails exactly as the value-level constructor does; on success the list holds fresh, valid States whose values and active position are the listing's, and the directory is as the listing left it |
| StateLists.StateList.ReadList | envcrypto/state.py:299-311 | read_list fails exactly as the listing does; otherwise it holds one fresh State per file with the listing's values and active position |
| StateLists.StateList.ReadEach | envcrypto/state.py:303-311 | the loop of read_list meets the loop of the listing, file by file |
| StateLists.StateList.OpenNth | envcrypto/state.py:304-309 | opening the next file either ends the listing with its error or extends it by that State |
| StateLists.StateList.OpenListed | envcrypto/state.py:304-309 | a file is opened with the key, or locked after InvalidKey; the State's value is the visit's, and the file is rewritten only when it unlocked with defaulted metadata |
| StateLists.StateList.Push | envcrypto/state.py:306-311 | the State is appended, and becomes the active one exactly when decrypted |
| StateLists.StateList.Get | envcrypto/state.py:292-297 | None exactly when no level is active; otherwise the State at the active index, which is decrypted and valid |
| StateLists.StateList.CheckVariables | envcrypto/state.py:313-337 | logs and raises exactly as the value-level check over the States |
| StateLists.StateList.CheckViews | envcrypto/state.py:313-337 | the three loops together give the value-level check |
| StateLists.StateList.CollectNames | envcrypto/state.py:316-320 | the first loop gives every collected name, each with an empty list |
| StateLists.StateList.AddAll | envcrypto/state.py:318-320 | the inner loop adds the names not yet present, with empty lists |
| StateLists.StateList.FillMissing | envcrypto/state.py:323-328 | the second loop maps each name to the States lacking it, keeping the key order |
| StateLists.StateList.StatesLacking | envcrypto/state.py:324-327 | the inner loop lists the names of the States that do not contain the key, in list order |
| StateLists.StateList.Report | envcrypto/state.py:332-337 | the last loop logs the warnings in order, stopping at the first with VariableMissing when raising |

Some definitions carry no contract of their own; the rowed lemmas named here state what they mean:

- `EnvFile.LockedFill` (the loop of `load_data`, `envcrypto/state.py:156-158`): `EnvFile.LockedFillShape`.
- `EnvFile.EncryptVars` (the loop of `save`, `envcrypto/state.py:208-209`): `EnvFile.EncryptVarsShape`.
- `EnvFile.Serialize` (the object `save` writes, `envcrypto/state.py:196-213`): `EnvFile.SerializeShape`, `EnvFile.SavedPlaintext`, `EnvFile.SavedCiphertexts`, `EnvFile.SavedVariables` and `EnvFile.SaveThenLoad`.
- `EnvFile.NewFile` (the object `new` writes, `envcrypto/state.py:53-67`): `EnvFile.NewFileReserved`, `EnvFile.NewFileFields` and `EnvFile.NewThenLoad`.
- `EnvFile.OpenState` (`State.__init__` as a value, `envcrypto/state.py:74-101`): `EnvFile.ResolveKey` and `EnvFile.OpenFile`, composed, and `States.State.Open`, which is proved against it.
- `EnvFile.Rewritten` (the `update()` that ends a load, `envcrypto/state.py:182-183, 191-194`): `States.State.Load`, whose file-system clause it is, with `EnvFile.SaveThenLoad` for what the rewritten file holds.
- `StateLists.Rewrites` (what `read_list` does to the directory, `envcrypto/state.py:303-311`): `StateLists.RewritesUntouched`, `StateLists.NextFileUnchanged` and `StateLists.StateList.ReadList`.

## Left out

- The cipher's internals (Fernet, base64, nonces, timestamps) are left out. Encryption is deterministic here, and the model relies only on the round-trip and wrong-key laws. Key generation (`Encrypter.generate_key`) and the random secret are parameters of `States.State.New`. The secret is required to have 50 characters from `CHAR_LIST`.
- Key validity is approximated as 44 characters of the url-safe base64 alphabet. The key's padding and byte length are not checked.
- JSON parsing, pretty-printing and file I/O are left out. A file is a parsed object in the `FileSystem` map, and a name that cannot be opened or parsed is absent from it. JSON values that are not strings are not modelled.
- `FileWriteError` is left out, because the model has no failing write.
- `glob.glob` is left out. The names it returns are a parameter. Each name occurs once, because glob returns each path once.
- `os.environ` (`read_env`) is left out. The `KEY` variable is an `Option<string>` parameter.
- `logging` calls are left out. The warnings of `check_variables` are returned as a sequence. The warnings before an update or a missing key have no effect and are comments.
- The on-disk order of the written keys follows `sort_keys` under code-point order. Indentation is not modelled.
- `str.upper` is modelled on ASCII letters only. Non-ASCII case mapping is not modelled.
- States.State.Load: only the load that `__init__` performs on a fresh State is modelled. A second `load` on a used State is not.
- StateLists.StateList.Create: on failure, its contract says nothing about the directory. A file that unlocked before the failure may have been rewritten.
- `StateList.name` (`envcrypto/state.py:339-342`) is left out. It reads a `current_state` attribute that is never set, so it always raises `AttributeError`.
- `envcrypto/levels.py` and the management commands are not part of this model. Neither are `setup.py`, `__init__.py` or the tests.
