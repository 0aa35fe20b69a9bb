# RSA secure chat: a verified model of its core

The chat is a single React component, `RSASecureChat` in `App.jsx`. A user types a
name and registers. Registering generates a textbook RSA key pair (p = 61, q = 53,
e = 17) and publishes the public key in a directory of user names. The user can then
send a message to everyone or to one user. The message is encrypted one UTF-16 code
unit at a time under each recipient's public key. Only the plain text goes into the
message log; the ciphertext is computed and then dropped.

This project models that core in Dafny and proves what it does:

- `number_theory.dfy` (module `NumberTheory`) proves that textbook RSA is correct from
  first principles: the binomial theorem, Euclid's lemma, Fermat's little theorem and
  the Chinese remainder step for two distinct primes. It also proves that 61 and 53
  are prime.
- `js_text.dfy` (module `JsText`) models JavaScript strings as sequences of UTF-16
  code units, `String.prototype.trim` with the exact ECMAScript whitespace set, and
  `String.fromCharCode` (which reduces its argument modulo 2^16).
- `rsa.dfy` (module `Rsa`) holds `modPow` as a square-and-multiply loop proved against
  `b^x mod m`, and `generateKeys` as a search loop proved to return the smallest
  inverse d = 2753. It holds `encrypt` and `decrypt` as functions on sequences, and the
  round-trip theorems.
- `chat.dfy` (module `Chat`) holds the component state as class `ChatApp`, with
  `handleRegister`, `handleSendMessage` and the broadcast fan-out loop.

What the code does at its edges, and how the model states it:

- There is no domain check on the message. `base % mod` (App.jsx:60) reduces a code
  unit of n or more before exponentiation, so it comes back as itself modulo n.
  `RoundTrip` and `GeneratedRoundTrip` state exactly that.
- A direct send looks the recipient up with `users[selectedUser]` (App.jsx:112). A
  name with no own entry and no inherited `Object.prototype` property gives
  `undefined`; destructuring it in `encrypt` (App.jsx:41) throws a `TypeError` before
  any state changes. This is `SendOutcome.RecipientMissing`. An inherited name such
  as "constructor" gives a function whose `e` and `n` are undefined; `modPow` then
  skips its loop and returns 1, so the send goes through with a cipher of 1s
  (`EncryptWithoutKey`).
- A blank name or message is ignored and nothing changes (App.jsx:72, 90).
- The RSA parameters are constants (App.jsx:22-26), so the search for d always ends.
- A broadcast does not give each recipient its own ciphertext. `generateKeys` is
  deterministic, so every published key is the same key and every recipient gets the
  same ciphertext (`BroadcastSameCipher`).

## Model

| member | source | states |
|---|---|---|
| `Rsa.ModPow` | App.jsx:58-69 | for exponent 0 returns 1 without entering the loop; for exponent > 0 returns base^exp mod m, which lies in [0, m); the loop keeps result * base^exp congruent to B^E modulo m, and the exponent strictly decreases |
| `Rsa.SquareMultiplyStep` | App.jsx:61-67 | one round of the loop (multiply in when the low bit is set, halve the exponent, square the base modulo m) preserves result * base^exp modulo m |
| `NumberTheory.PowModBase` | App.jsx:60 | reducing the base modulo m first (`base = base % mod`) does not change the power modulo m |
| `Rsa.GenerateKeys` | App.jsx:21-37 | returns n = 61 * 53 = 3233 in both keys and e = 17; d is positive, d * 17 mod 3120 = 1, no smaller positive d has that property, and d = 2753; the search terminates |
| `Rsa.InverseOf17` | App.jsx:28-31 | 2753 is the only inverse of 17 modulo 3120 in 1..2753, so the linear search from d = 1 stops there |
| `Rsa.Encrypt` | App.jsx:40-46 | the cipher has one number per code unit of the message, in order, each in [0, n) when e > 0 |
| `Rsa.Decrypt` | App.jsx:49-55 | the text has one code unit per number of the cipher, in order |
| `JsText.FromCharCode` | App.jsx:53 | `String.fromCharCode` keeps a number below 2^16 unchanged (in general it reduces modulo 2^16) |
| `Rsa.CipherConcat` | App.jsx:42-54 | encryption and decryption work position by position: the result for a concatenation is the concatenation of the results |
| `NumberTheory.RsaCorrect` | App.jsx:21-69 | for distinct primes p, q, n = p q and e d = 1 modulo (p - 1)(q - 1), (m^e mod n)^d mod n = m mod n for every m |
| `NumberTheory.Prime61` | App.jsx:22 | p = 61 is prime |
| `NumberTheory.Prime53` | App.jsx:23 | q = 53 is prime |
| `Rsa.GeneratedFromPrimes` | App.jsx:21-36 | the generated pair is a textbook RSA pair over the primes 61 and 53 |
| `Rsa.ExponentsPositive` | App.jsx:21-36 | in such a pair n, e and d are all positive, so both modPow calls run their loops |
| `Rsa.ModPowRoundTrip` | App.jsx:44-52 | for an RSA pair over two distinct primes, modPow(modPow(u, e, n), d, n) = u mod n |
| `Rsa.RoundTripUnit` | App.jsx:43-53 | a single code unit u comes back from encrypt-then-decrypt as u mod n |
| `Rsa.RoundTrip` | App.jsx:40-69 | for any RSA pair over two distinct primes, decrypt(encrypt(t)) has the length of t and its i-th code unit is t[i] mod n |
| `Rsa.GeneratedRoundTrip` | App.jsx:21-69 | for the generated pair, decrypt(encrypt(t)) = t if and only if every code unit of t is below 3233 |
| `Rsa.GeneratedEncryptInjective` | App.jsx:40-46 | under the generated public key, two messages whose code units are below 3233 and that encrypt to the same cipher are equal |
| `JsText.TrimEmptyIffBlank` | App.jsx:72 | `x.trim()` is empty (falsy) exactly when every code unit of x is ECMAScript whitespace or a line terminator |
| `JsText.TrimIsTruthy` | App.jsx:72 | the guard `if (x.trim())` (here and at App.jsx:90) is taken exactly when x holds a code unit that is not ECMAScript whitespace |
| `JsText.TrimSlice` | App.jsx:90 | `trim()` returns a contiguous slice of its input that does not start or end with whitespace, and drops only whitespace around it |
| `JsText.TrimStart` | App.jsx:72 | the leading half of `trim()` (called here and again at App.jsx:90): drops a whitespace-only prefix and leaves a result that is empty or starts with a non-whitespace code unit |
| `JsText.TrimEnd` | App.jsx:90 | the trailing half of `trim()` (called here and at App.jsx:72): drops a whitespace-only suffix and leaves a result that is empty or ends with a non-whitespace code unit |
| `Chat.JoinNotice` | App.jsx:83 | the join notice starts with the name as typed and ends with exactly the 16 code units " joined the chat" |
| `Chat.EncryptWithoutKey` | App.jsx:40-45 | `encrypt` with a key object lacking `e` and `n` (an inherited `Object.prototype` member) gives the same cipher as any key with exponent 0: the loop at App.jsx:61 never runs |
| `Chat.InheritedLookups` | App.jsx:112 | `users[name]` finds an inherited member, not `undefined`, for "toString", "valueOf", "__proto__" and "hasOwnProperty" (and the other standard `Object.prototype` names), so a direct send to one of them is delivered rather than throwing |
| `Chat.KeylessCipherUnreadable` | App.jsx:110-113 | a cipher made for an inherited name decrypts under the generated private key to the text only when every code unit of the text is 1 |
| `Chat.EncryptForAll` | App.jsx:93-100 | the fan-out has exactly the directory's names other than the sender's, each mapped to the message encrypted under that name's public key |
| `Chat.ChatApp.constructor` | App.jsx:5-11 | the initial state: empty log, input and name, not registered, no key pair, empty directory, selector "broadcast" |
| `Chat.ChatApp.SetUserName` | App.jsx:155 | sets the name; before registration the directory stays empty |
| `Chat.ChatApp.SetInputMessage` | App.jsx:332 | sets the input buffer and nothing else |
| `Chat.ChatApp.SetSelectedUser` | App.jsx:248-262 | sets the recipient selector and nothing else; any name is accepted, so the handler's contract covers names the buttons never offer |
| `Chat.ChatApp.HandleRegister` | App.jsx:71-87 | a blank name changes nothing; otherwise the key pair becomes the generated pair, the directory maps the untrimmed name to its public key (overwriting) and keeps every other entry, the user is registered, and exactly one system entry "`<name>` joined the chat" is appended; every key stays the generated one |
| `Chat.ChatApp.HandleSendMessage` | App.jsx:89-127 | the send is ignored, and nothing changes, exactly when the input is blank or there is no key pair; it throws, and nothing changes, exactly when a direct send names a user with neither an own nor an inherited `Object.prototype` entry; otherwise exactly one "sent" entry with the plain text, `encrypted` true and recipient "Everyone" or the selected name is appended, the input is cleared and the directory, name, key pair and selector are untouched; a broadcast encrypts for exactly the other directory names under their keys, a direct send under the selected name's key, or with no key (1 per code unit) for an unregistered inherited name |
| `Chat.BroadcastReadable` | App.jsx:93-100 | every recipient of a broadcast recovers the text with the generated private key if and only if all its code units are below 3233 |
| `Chat.BroadcastSameCipher` | App.jsx:96-99 | since every published key is the generated key, all recipients of a broadcast get the same ciphertext |

## Left out

- The JSX rendering (App.jsx:135-348), icons and CSS classes are presentation. They
  are not modelled. Its event bindings are kept as the three setter methods.
  `ChatApp.SingleDevice` records the one thing the render code implies for the state:
  the name field and the register button exist only before registration, so the
  directory holds at most the user's own name.
- `copyToClipboard` (App.jsx:129-133) and the `copiedKey` and `showKeyInfo` state are
  left out. They use the browser clipboard, a timer and a display toggle.
- The scroll-into-view effect (App.jsx:16-18) is a DOM side effect and is left out.
- Timestamps from `new Date().toLocaleTimeString()` are clock reads. They are passed
  to the handlers as an opaque string parameter.
- React's asynchronous, batched `useState` setters are modelled as ordinary
  assignments in program order. Each handler reads only the state from before its own
  updates, so the result is the same.
- The directory is a Dafny `map`. `Object.entries` visits integer-like names first, in
  ascending numeric order, and then the other names in insertion order; the fan-out's
  result does not depend on that order, so the loop picks any key.
- Rsa.Encrypt, Rsa.Decrypt and Rsa.ModPow require a modulus above 0. With a modulus of
  0, JavaScript would compute NaN. Every key the component holds has n = 3233, so
  this never happens.
- Rsa.Decrypt takes the cipher as natural numbers. It does not model `decrypt` on
  negative or fractional numbers, which the component never produces.
- Rsa.ModPow computes with exact integers. JavaScript numbers are IEEE doubles, so
  `(result * base) % mod` and `(base * base) % mod` (App.jsx:63, 66) are exact only
  while mod² stays below 2^53, about 9.49·10^7 for mod. The model therefore matches
  `modPow`, and `RoundTrip` matches `decrypt(encrypt(t))`, only for such moduli. The
  component only ever uses n = 3233.
- Chat.InheritedNames lists the `Object.prototype` properties of the ECMAScript
  standard. Properties that a browser or a library adds to `Object.prototype` are not
  modelled.
