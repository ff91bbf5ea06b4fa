# Password vault and password generator — a Dafny model

This project models the two algorithmic pieces of a small local password
manager written in Python.

**The vault** (`Passgen.py`). A store maps service names to records. Each
record holds an encrypted username token, an encrypted password token, a
base64url salt, and `created_at` / `updated_at` timestamps. Every record's
key is derived from the master key and that record's own salt. The model
covers:

- `load_passwords`: a missing or unparsable file reads as the empty store.
- `add_password`: a four-way decision.
  - An absent service is inserted.
  - A service whose stored username does not decrypt to the supplied one is rejected.
  - An entry that is already up to date is left alone.
  - Otherwise only the password token and `updated_at` change.

  The file is written at most once, and only on insert or update.
- `get_password`: it cannot tell a missing service apart from a username that does not decrypt.
- `check_master_key`: it succeeds only when every record's username decrypts to a non-empty text.

Key derivation (scrypt), AES-256-CBC with PKCS#7 padding and base64url are
library calls. They are the fields of a `Crypto.Primitives` value: arbitrary
functions that every operation takes as a parameter. The libraries' round
trip is the predicate `Crypto.Sound`: decrypting an encrypted token under the
same key gives back the plaintext, and decoding an encoded salt gives back
the salt. Only the lemmas that need it assume it. A failed decryption is
`None`, not an exception. Randomness (`os.urandom`) and the clock
(`datetime.now`) are parameters too: `Vault.Entropy` holds the bytes the
random draws return, and `Vault.Clock` holds the clock readings.

**The generator** (`generator.py`). `generate_password` draws characters
one at a time and keeps only the ones not already in the password. The
random calls of iteration `i` are `next(i)`, an infinite stream of draws.
The stream is assumed fair: every character of the alphabet keeps coming
up (`Generator.Oracle`). Under that assumption, `length` at most the
alphabet size (94 with special characters, 62 without) is exactly what
makes the loop terminate. `Generator.NeverCompletes` shows why the bound
is needed: with a longer `length`, no number of iterations keeps enough
characters, so the loop condition never fails. The script's `main` passes
any parsed length straight to the generator, so `generator.py 100` never
finishes. The model records this as the precondition of
`Generator.GeneratePassword`.

Modules: `Options` (result types), `Crypto`, `Vault`, `VaultProperties`,
`Alphabet`, `Generator`, `Arguments`.

Behaviours of the code a reader might not expect:

- A new record gets its `created_at` and `updated_at` from two separate clock
  readings (`Passgen.py:152-153`), so they need not be equal. `Vault.Add`
  states them as `clock.first` and `clock.second`.
- `get_password` and `check_master_key` test the decrypted username for
  truthiness (`Passgen.py:176`, `Passgen.py:199`), so an empty username
  counts as a failure even though it decrypted. An entry added with an empty
  username can never be read back (`VaultProperties.EmptyUsernameNeverUnlocks`).
- Decoding a stored salt is not guarded (`Passgen.py:133`, `173`, `197`),
  unlike decryption: a corrupt salt raises out of the call, while a token
  that does not decrypt only reads as "not found".
  The model gives this its own outcome: `AddKind.Aborted` in `Add`, and
  `Raised` in `Get` and `CheckMasterKey`.
- The generator's docstring promises no runs such as `123456`. The code only
  rejects repeated characters, so a run of distinct characters like that can
  still come out. The model states what the code guarantees.

## Model

| member | source | states |
|---|---|---|
| Vault.Load | Passgen.py:99-105 | a missing file and an unparsable file both read as the empty store; a parsed document reads as its own mapping |
| Vault.Add | Passgen.py:129-156 | insert exactly when the service is absent: one new record sealed under a key from the fresh salt, timestamps from the clock, other services untouched; reject, touching nothing, when the stored username does not decrypt to the supplied one (a failed decryption included); no-op when the password already decrypts equal; otherwise change only the password token (re-encrypted under the stored salt's key) and `updated_at`; a corrupt salt aborts; at most one save, and only on insert and update |
| Vault.AddPassword | Passgen.py:118-156 | the file is left exactly as it was on reject, no-op and abort, even when it was unparsable; on insert and update it is overwritten with exactly the store the decision produced, which keeps every earlier service and holds the added one |
| Vault.Get | Passgen.py:170-181 | a missing service and a username that decrypts to nothing or to the empty text give the same "none" answer; otherwise the non-empty decrypted username and the password's decryption result, which may itself be absent; a corrupt salt raises |
| Vault.CheckMasterKey | Passgen.py:194-201 | true exactly when every record's username decrypts to non-empty text under the key from its own salt (so an empty store gives true); false only when some record with a good salt fails to unlock; raises only when some salt is corrupt |
| VaultProperties.InsertedRecordOpens | Passgen.py:146-156 | an inserted record's salt decodes to the fresh salt and both tokens decrypt, under the key derived from it, to the supplied username and password |
| VaultProperties.AddThenGet | Passgen.py:132-181 | for a non-empty username, after an insert, update or no-op, reading the service with the same master key returns exactly the supplied username and password |
| VaultProperties.ReAddIsNoOp | Passgen.py:136-143 | adding the same service, username and password a second time, with any randomness and clock, neither changes nor saves the store |
| VaultProperties.AddPreservesGoverned | Passgen.py:132-156 | if every record opens under the master key, every record still does after an add with that key |
| VaultProperties.AddPreservesUnlocks | Passgen.py:132-201 | if every record unlocks under the master key, so that the probe answers true, every record still unlocks after an add with that key and a non-empty username |
| VaultProperties.EmptyUsernameNeverUnlocks | Passgen.py:172-201 | a record inserted with an empty username fails the probe and reads back as "none" |
| Alphabet.CharRange | generator.py:21-23 | the characters lo..hi, each once, in a string of hi - lo + 1 characters |
| Alphabet.Enumerate | generator.py:20-24 | the alphabet a mode draws from, each character once: 94 printable characters, or 62 digits and letters |
| Alphabet.LengthBoundedByAlphabet | generator.py:18-28 | a password of distinct alphabet characters is at most the alphabet's size long |
| Generator.NeverCompletes | generator.py:18-28 | with a `length` above the alphabet's size, every number of iterations keeps fewer than `length` characters, so the loop never exits |
| Alphabet.SomeCharacterUnused | generator.py:18-28 | a distinct password shorter than the alphabet misses some alphabet character |
| Generator.DrawCharInAlphabet | generator.py:20-24 | a draw with special characters gives a code in 33..126; a draw without gives a digit, an upper-case letter or a lower-case letter |
| Generator.DedupStep | generator.py:26-28 | one more draw is kept exactly when its character is not yet in the password |
| Generator.DrawnInAlphabet | generator.py:18-24 | every character proposed by a stream of one mode lies in that mode's alphabet |
| Generator.DedupKeepsFrom | generator.py:26-28 | the password holds only characters that were drawn |
| Generator.DedupDistinct | generator.py:26-28 | the password never holds a character twice |
| Generator.KeptInAlphabet | generator.py:16-28 | after any number of iterations the password is distinct and over the alphabet |
| Generator.KeptGrows | generator.py:18-28 | further iterations never shorten the password |
| Generator.StopsAtFirstCompletion | generator.py:18-30 | when the loop stops right after the iteration that completed the password, no earlier iteration had completed it |
| Generator.FreshDrawAhead | generator.py:18-28 | with a fair stream and room left in the alphabet, a character not yet kept is drawn again later |
| Generator.GeneratePassword | generator.py:5-30 | for `length <= 0` the empty string; otherwise exactly `length` characters, none repeated, all from the mode's alphabet, namely the first distinct characters of the draws in order, stopping at the first iteration that completes the password |
| Arguments.IsBooleanArg | generator.py:77-87 | holds exactly for "0" and "1" |
| Arguments.ParseBoolean | generator.py:89-99 | "1" gives true, "0" gives false, every other text gives none |
| Arguments.ParseShowRoundTrip | generator.py:89-99 | parsing inverts the flag spelling in both directions |
| Arguments.SelectSettings | generator.py:110-133 | defaults (16, true); one argument changes only the length, and only when it parses; two arguments change both, and only when both validate; any other count keeps the defaults; special characters are off only after an explicit valid "0" |
| Arguments.ChangedLengthWasParsed | generator.py:119-128 | a non-default length is the parsed value of the first argument |

## Left out

- Key derivation, encryption, decryption and base64url are not reimplemented. They are abstract functions. Their round trip is the assumption `Crypto.Sound`, and the constants (scrypt N = 2^14, r = 8, p = 1, 32-byte keys, 16-byte IVs and salts) appear only as the `Key` and `Block` types and in comments. A wrong-key decryption failing is not provable about arbitrary functions. So "false under any other master key" and "different IVs give different tokens" are not stated.
- `Passgen.__init__` only checks an unused length argument. It is not modelled.
- Reading and writing the JSON file are modelled only by their outcome. `Vault.StoreFile` stands for a missing file, an unparsable file or a parsed object, and `Vault.Save` for the file overwrite. I/O errors are not modelled, and the write is not atomic in the code. A parsed JSON value that is not an object of five-field records is also not modelled: the code would fail later with an uncaught lookup error.
- `Vault.CheckMasterKey` takes the dictionary's iteration order as a parameter. The order matters only to decide whether a corrupt salt raises before another record answers false.
- `list_services`, the "drop" command and the CLI dispatch of `main.py` are not modelled. They are interface code. Listing also depends on the insertion order of the stored JSON, which a map does not keep.
- `.gitignore` bookkeeping in `ignore.py` is file I/O and is not modelled.
- `calcular_tiempo_descifrado` is floating-point arithmetic and is not modelled.
- `validar_enteros` and Python's `int()` parsing are not modelled. They are the `parseInt` parameter of `Arguments.SelectSettings`.
- `random.randint` and `random.choice` are the draw stream of `Generator.GeneratePassword`. The fairness of the stream is an assumption about the random source, not something proved.
- `print` diagnostics are not modelled.
