# Enigoma: a single-rotor substitution cipher, modelled in Dafny

This project models the Enigoma cipher package, `enigoma.go`. The machine
holds one substitution table: 26 bytes that form a permutation of `'A'..'Z'`.
Encrypting a lowercase letter `b` yields `t[b - 'a']`. Decrypting a capital
yields `'a'` plus the capital's position in the table. The table turns one
place to the left after every byte processed, spaces included.

- `NewEnigoma` takes the caller's table when `checkTable` accepts it.
  Otherwise it draws a random one with `createTable`.
- `Encrypt` accepts only spaces and `'a'..'z'`. The first other byte stops it
  with the error "only 'a' to 'z' in input text". On success it puts the
  starting table back. On error it does not: the table stays rotated once per
  byte consumed before the bad one, so the next call starts from there.
- `Decrypt` passes spaces through and maps each capital back. It leaves the
  table rotated once per byte.

`_example/main.go:12-20` calls an API that `enigoma.go` does not have: a
plugboard built with `NewPlugBoard` and `AddExchange`, and a seven-argument
`NewEnigoma` taking three tables, three starting keys and the plugboard. The
model follows `enigoma.go`, which has one table and the one-argument
constructor `NewEnigoma(m)`; the model's constructor also takes the random
picks `createTable` consumes (see "Left out"). `Encrypt` in `enigoma.go` returns an error on the first byte that
is neither a space nor `'a'..'z'` (`enigoma.go:42-43`); it never passes such a
byte through.

Modules:

- `Table` (`table.dfy`): the byte type and letter classes. It also holds the
  validity predicate `ValidTable` (26 capitals, none repeated), `checkTable`,
  `createTable`, and the proof that a valid table holds every capital letter.
- `Rotor` (`rotor.dfy`): the table as a value. It defines the one-step
  rotation and its `n`-fold iterate, plus `ptoc`, `indexAt` and `ctop` as
  functions. The lemmas show that the two lookups are mutually inverse.
- `Cipher` (`cipher.dfy`): what `Encrypt` and `Decrypt` compute over a whole
  text. It also gives their closed forms and proves the round trips in both
  directions.
- `Enigoma` (`enigoma.dfy`): the Go types as classes. `Scrumble` owns a
  26-element array, which `Rotate` shifts in place. `Enigoma` embeds a
  `Scrumble` and keeps the invariant that its table is a permutation of A–Z.
  `Encrypt` and `Decrypt` are loops that are proved against the `Cipher`
  functions.

Bytes are the newtype `Table.byte` (0..255), and texts are `seq<byte>`.

## Model

| member | source | states |
|---|---|---|
| `Table.CheckTable` | enigoma.go:109-127 | returns true exactly when the input has length 26, every byte is in 'A'..'Z' and no byte repeats (`ValidTable`) |
| `Table.ValidTableHasEvery` | enigoma.go:109-127 | a table `checkTable` accepts contains every capital letter, so it is a permutation of A–Z |
| `Table.Draw` | enigoma.go:129-142 | selection without replacement, `createTable`'s loop as a function: pick `i` takes the letter at that index of what is left of the alphabet, and the result is as long as the alphabet |
| `Table.DrawPermutes` | enigoma.go:129-142 | drawing without replacement returns as many letters as the alphabet holds, only letters of the alphabet, and no repeats when the alphabet has none |
| `Table.DrawnTableValid` | enigoma.go:129-142 | every table `createTable` can draw from "A..Z" passes `checkTable` |
| `Table.CreateTable` | enigoma.go:129-142 | the loop returns the draw the random picks select, and that table is valid |
| `Rotor.RotateLeft` | enigoma.go:77-81 | `rotate` as a function: a 26-byte table stays 26 bytes |
| `Rotor.RotateLeftAt` | enigoma.go:77-81 | after one rotation, position `i` holds what position `(i + 1) mod 26` held, so the first byte moves to the end |
| `Rotor.RotatedAt` | enigoma.go:73-81 | after `n` rotations, position `i` holds the byte that was at `(i + n) mod 26` |
| `Rotor.RotatedFullTurn` | enigoma.go:73-81 | 26 consecutive rotations restore the original table |
| `Rotor.RotateLeftValid` | enigoma.go:73-81 | one rotation keeps a table a permutation of A–Z |
| `Rotor.RotatedValid` | enigoma.go:73-81 | any number of rotations keeps a table a permutation of A–Z |
| `Rotor.Ptoc` | enigoma.go:83-89 | defined only for 'a'..'z'; on a valid table the result is a capital |
| `Rotor.IndexOf` | enigoma.go:99-107 | the result is -1 or an index holding `b` with no earlier occurrence; -1 only when `b` is absent |
| `Rotor.IndexOfDistinct` | enigoma.go:99-107 | in a table without repeats the search finds exactly the position that holds the letter |
| `Rotor.Ctop` | enigoma.go:91-97 | defined only for 'A'..'Z'; the result is the byte below 'a' when the letter is absent, otherwise a lowercase letter whose table entry is `b` |
| `Rotor.CtopPtoc` | enigoma.go:83-97 | on a valid table, `ctop(ptoc(b)) == b` for every lowercase `b` |
| `Rotor.PtocCtop` | enigoma.go:83-107 | on a valid table, `ctop(B)` is lowercase and `ptoc(ctop(B)) == B` for every capital `B` |
| `Cipher.EncryptByte` | enigoma.go:40-46 | on a valid table a space stays a space and a letter becomes a capital |
| `Cipher.DecryptByte` | enigoma.go:58-62 | one pass of `Decrypt`'s loop: on a valid table a space stays a space and a capital becomes a lowercase letter |
| `Cipher.EncryptText` | enigoma.go:38-51 | the ciphertext has the same length as the plaintext |
| `Cipher.DecryptText` | enigoma.go:56-66 | the plaintext has the same length as the ciphertext |
| `Cipher.FirstBad` | enigoma.go:39-44 | the position of the first byte that is neither a space nor 'a'..'z' (or the length): all earlier bytes are accepted and that byte is not |
| `Cipher.FirstBadAt` | enigoma.go:39-44 | a position with only accepted bytes before it and a rejected byte at it (or the end) is `FirstBad` |
| `Cipher.EncryptTextAt` | enigoma.go:39-48 | output byte `i` is input byte `i` encrypted with the table rotated `i` times, because `rotate` runs after every byte |
| `Cipher.DecryptTextAt` | enigoma.go:57-64 | output byte `i` is input byte `i` decrypted with the table rotated `i` times |
| `Cipher.EncryptClosedForm` | enigoma.go:39-48 | spaces stay in place; the letter `c` at position `i` becomes the capital `t0[(c - 'a' + i) mod 26]` |
| `Cipher.IndexOfRotated` | enigoma.go:73-107 | after `i` rotations a capital sits at its old position minus `i`, mod 26 |
| `Cipher.CtopRotated` | enigoma.go:91-97 | `ctop` at step `i` gives 'a' + (position in the starting table - i) mod 26 |
| `Cipher.DecryptClosedForm` | enigoma.go:55-67 | spaces stay in place; the capital `C` at position `i` becomes 'a' + ((position of `C` in `t0`) - i) mod 26 |
| `Cipher.DecryptEncrypt` | enigoma_test.go:37-43 | from the same valid starting table, the ciphertext of any text of spaces and lowercase letters is decryptable and decrypts to that text |
| `Cipher.EncryptDecrypt` | enigoma.go:34-67 | from the same valid starting table, the decryption of any text of spaces and capitals is accepted by `Encrypt` and encrypts back to that text |
| `Enigoma.Scrumble.constructor` | enigoma.go:27-31 | the new rotor's table is a fresh copy of the given 26 bytes |
| `Enigoma.Scrumble.Rotate` | enigoma.go:77-81 | the table becomes its one-step left cyclic shift, in place |
| `Enigoma.Scrumble.Ptoc` | enigoma.go:83-89 | returns the table entry of the lowercase letter, as `Rotor.Ptoc` |
| `Enigoma.Scrumble.IndexAt` | enigoma.go:99-107 | the linear search returns the first index holding `b`, or -1 when no entry is `b` |
| `Enigoma.Scrumble.Ctop` | enigoma.go:91-97 | returns 'a' plus the search result, as `Rotor.Ctop` |
| `Enigoma.Enigoma.constructor` | enigoma.go:17-32 | the table is the caller's bytes when `checkTable` accepts them, otherwise the draw of `createTable`; either way a permutation of A–Z |
| `Enigoma.Enigoma.Encrypt` | enigoma.go:34-52 | on input of spaces and lowercase letters, returns the ciphertext and leaves the table as it was; otherwise returns the error and leaves the table rotated once per byte before the first rejected one; the table stays a permutation |
| `Enigoma.Enigoma.Decrypt` | enigoma.go:54-67 | returns the decryption from the current table and leaves that table rotated once per input byte |
| `Enigoma.EncryptThenDecrypt` | enigoma_test.go:35-43 | on a freshly built machine, `Decrypt(Encrypt(pt))` on the same instance returns `pt`, and the ciphertext is as long as `pt` |

## Left out

- The plugboard, the three-rotor chain, the reflector, starting keys and the
  seven-argument constructor used by `_example/main.go` are not part of
  `enigoma.go`. The model has one rotor and no reflector.
- `createTable`'s random source: `rand.Intn`, reseeded from the clock on every
  iteration, is replaced by the parameter `picks`. Pick `i` stands for the
  value `rand.Intn(26 - i)` returned. The model does not say anything about the
  distribution of tables.
- `log.Printf` in `NewEnigoma` is output only and is left out.
- The `strings.Builder` / `fmt.Fprintf` plumbing is modelled as appending one
  byte to a sequence per input byte.
- Go ranges over a string rune by rune, and `Decrypt` truncates each rune with
  `byte(t)`. Both are left out: inputs are sequences of bytes.
- The panics of `ptoc` and `ctop` on bytes outside 'a'..'z' and 'A'..'Z' are
  preconditions. For `Decrypt`, this means it requires every input byte to be
  a space or a capital.
- A nil table slice and an empty one are the same (the empty sequence);
  `checkTable` rejects both.
- Go's `Enigoma` embeds a `Scrumble` by value. The model's `Enigoma` holds one
  `Scrumble` object whose array is never shared. `Encrypt` takes a snapshot of
  the table and copies it back element by element, where Go assigns a whole
  array value.
- `enigoma_test.go` calls `Encrypt` as if it returned one value, and its
  lowercase `stupidTable` is rejected by `checkTable`. Only the test's round
  trip is modelled (`Enigoma.EncryptThenDecrypt`, `Cipher.DecryptEncrypt`).
