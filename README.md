# Mini banking system: ledger and login model

A Dafny model of the account ledger and the credential checks of the mini
banking system (`mini_banking_system.py`).

The transactions document maps each username to an account. An account
holds a `balance` and a `history` of records. Each record has a `date`, a
`type` (`Deposit` or `Withdrawal`), the `amount` moved and the `balance`
just after it. Four operations work on the document:

- `initialize_account` creates an empty account on demand.
- `deposit` accepts a positive amount and appends a record.
- `withdraw` refuses on an account with no positive balance. Otherwise it
  accepts `0 < amount <= balance` and appends a record.
- `check_balance` and `view_transactions` only read.

`login` counts failed attempts and locks the user out after three.
`create_user` accepts a new username and a confirmed password.

Layout:

- `wrappers.dfy` (module `Wrappers`): `Option` and `Result`.
- `text.dfy` (module `Text`): Python's `str.strip()` over the character set
  of `str.isspace`, used on every typed username.
- `auth.dfy` (module `Auth`): the login loop as a method (`Login`). It is
  proved equal to a recursive reference function (`LoginFrom`). Lemmas
  about `LoginFrom` state what login guarantees. The module also holds the
  acceptance rules of `create_user` (`CreateUser`).
- `ledger.dfy` (module `Ledger`): the data model and the ledger invariant
  (`Consistent`). `DepositInto`, `WithdrawFrom` and `Initialized` are pure
  transitions on account values. The class `Bank` holds the document as a
  mutable `map` field. Its methods update it in place the way the program
  does: `balance += amount`, then append the record. Each method's
  postcondition ties the new document to the pure transition of the old
  one. `ExampleSession` is a client that runs a short session against
  these contracts.

Modelling choices:

- Money is a Dafny `real`, an exact mathematical number, not a float.
- The date string is an opaque parameter.
- Each re-prompt loop for an amount, a username or a password becomes one
  call that either succeeds or is refused. A refused call leaves the state
  unchanged, and the caller asks again.
- `deposit`, `withdraw`, `check_balance` and `view_transactions` index the
  document directly. "The account exists" is therefore a precondition. An
  unknown username raises `KeyError` in the code. The system's design
  describes an `AccountNotFound` error, but the code has none. The model
  follows the code.
- `withdraw` checks for an account with no positive balance before it
  reads an amount. The model keeps that order, so `EmptyAccount` comes
  before `InvalidAmount` and `InsufficientFunds`.
- The deposit and withdrawal methods return the new balance as a `Result`.
  The code prints it instead, and prints its refusals.
- `login` reads a finite sequence of attempts, each a typed username and a
  password. The password is consulted only when the stripped username is
  registered, as the code prompts for it only then.

## Model

| member | source | states |
|---|---|---|
| `Text.TrimStart` | mini_banking_system.py:68 | the result is no longer than the input and does not start with whitespace |
| `Text.TrimEnd` | mini_banking_system.py:68 | the result is no longer than the input, does not end with whitespace and keeps the first character |
| `Text.TrimStartIsSuffix` | mini_banking_system.py:68 | leading trimming keeps a suffix and removes only whitespace |
| `Text.TrimEndIsPrefix` | mini_banking_system.py:68 | trailing trimming keeps a prefix and removes only whitespace |
| `Text.Strip` | mini_banking_system.py:32 | a stripped username neither starts nor ends with whitespace |
| `Text.StripIsTrimmedSlice` | mini_banking_system.py:68 | `strip()` returns a contiguous slice of its input; everything before and after it is whitespace |
| `Text.StripIdempotent` | mini_banking_system.py:68 | stripping twice equals stripping once |
| `Auth.LoginFrom` | mini_banking_system.py:64-92 | any username it returns is non-empty and registered |
| `Auth.Login` | mini_banking_system.py:64-92 | the `while attempts < max_attempts` loop returns exactly what `LoginFrom` gives from zero failures, so only a registered user |
| `Auth.LoginFindsFirstAccepted` | mini_banking_system.py:79-90 | if attempt `i` is the first whose stripped name is registered with that password, and fewer than 3 attempts were used before it, login returns that name |
| `Auth.LoginOnlyFirstAccepted` | mini_banking_system.py:67-90 | conversely, a returned username comes from the first accepted attempt within the 3 allowed; the stripped name is a key of `users` and the typed password equals `users[name]` |
| `Auth.LoginLockout` | mini_banking_system.py:67-87 | when no allowed attempt succeeds, counting empty names, unknown names and wrong passwords alike, login returns no user |
| `Auth.LoginReadsAtMostMaxAttempts` | mini_banking_system.py:64-67 | input after the first 3 attempts never changes the outcome |
| `Auth.CreateUser` | mini_banking_system.py:31-52 | sign-up succeeds iff the stripped name is non-empty and new and the password is non-empty and confirmed; the errors come in the code's check order; success adds exactly that user and keeps every other password |
| `Auth.SignupThenLogin` | mini_banking_system.py:52 | right after sign-up, logging in with the same name and password succeeds at the first attempt |
| `Auth.SignupKeepsLogins` | mini_banking_system.py:52 | sign-up never breaks an existing login |
| `Ledger.ReplayIsLastBalance` | mini_banking_system.py:120-127 | in a chained history, the balance obtained by replaying the records equals the last record's stored snapshot |
| `Ledger.ConsistentBalanceIsNonNegative` | mini_banking_system.py:137-162 | an account that keeps the ledger invariant never has a negative balance |
| `Ledger.AppendKeepsChained` | mini_banking_system.py:155-162 | appending a record that follows the last snapshot keeps the history chained |
| `Ledger.Initialized` | mini_banking_system.py:94-102 | a missing username gets `{balance: 0, history: []}`; an existing account and all other entries are unchanged |
| `Ledger.InitializeIdempotent` | mini_banking_system.py:97 | initializing twice equals initializing once |
| `Ledger.DepositInto` | mini_banking_system.py:112-127 | accepted iff amount > 0, otherwise `InvalidAmount`; the balance grows by exactly the amount; earlier history is kept and one `Deposit` record with the new balance is appended; the ledger invariant is preserved |
| `Ledger.WithdrawFrom` | mini_banking_system.py:135-162 | a balance <= 0 is refused first with `EmptyAccount`; otherwise accepted iff 0 < amount <= balance; the balance shrinks by exactly the amount and stays >= 0; one `Withdrawal` record with the new balance is appended; the ledger invariant is preserved |
| `Ledger.Bank.constructor` | mini_banking_system.py:96 | the bank starts from the loaded document as it is |
| `Ledger.Bank.InitializeAccount` | mini_banking_system.py:94-102 | reports creation iff the name was absent; the new document is `Initialized` of the old one; the invariant is preserved |
| `Ledger.Bank.Deposit` | mini_banking_system.py:105-129 | on success only this user's account changes, to `DepositInto` of the old one, and the new balance is returned; a refused amount leaves the document unchanged; the invariant is preserved |
| `Ledger.Bank.Withdraw` | mini_banking_system.py:132-164 | on success only this user's account changes, to `WithdrawFrom` of the old one; every refusal leaves the document unchanged; the invariant is preserved |
| `Ledger.Bank.CheckBalance` | mini_banking_system.py:167-171 | for a consistent account, the balance shown is the last record's snapshot and is not negative |
| `Ledger.Bank.ViewTransactions` | mini_banking_system.py:173-190 | the history in stored (oldest-first) order; for a consistent account every amount is positive and replaying the records gives the balance |

## Left out

- `load_data` and `save_data` (mini_banking_system.py:10-25) are left out. The model has no file checks, no JSON and no `IOError` handling. The document is an in-memory map, and `Bank`'s constructor takes the loaded document as it is.
- Prompts (`input`, `getpass`) are left out. So are `float(...)` parsing and the `ValueError` retries. Amounts and credentials are parameters.
- Float arithmetic is left out. Amounts are exact reals, so rounding drift is not modelled. `float()` also accepts `"nan"` and `"inf"`, and both pass the code's `amount <= 0` comparisons. Those inputs are not modelled.
- `datetime.now().strftime(...)` is left out. The date is an opaque string parameter.
- All printing and `:.2f` formatting are left out. So are `main_menu`, `main` and the `KeyboardInterrupt`/`Exception` wrapper (mini_banking_system.py:192-251).
- `login`'s fallback to `create_user` when no users exist (mini_banking_system.py:60-62) is left out. So is plaintext password storage.
- Auth.Login: when the attempt sequence runs out before a success or three failures, the model returns no user. The code would raise `EOFError` at the next prompt, which the top-level handler reports.
- Auth.CreateUser: models one pass of the prompts. The code's unbounded `while True` re-prompting is the caller asking again.
- Text.IsSpace: follows Python's `str.isspace` character set. Unicode normalisation is not modelled.
