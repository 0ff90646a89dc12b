# Encryptor — a Dafny model

Encryptor is a small C++ command-line tool that "encrypts" a file by XORing
each byte with a key byte taken cyclically from a key file. Because XOR is
self-inverse, `Encrypt` called again on its own output with the same key
gives back the original bytes: encryption and decryption are meant to be the
same operation. `main` as written never calls `Encrypt` with three file
paths, though (see "## Findings").

This project models `main.cpp`: the in-place transform loop of `Encrypt`,
the validation and error codes around it (-1 when a file cannot be opened,
-2 when the input is one byte or shorter, 0 on success), the order in which
`Encrypt` touches its three files, and `main`'s dispatch on `argc` and
`argv[1]`. Everything lives in one module, `Encryptor`, in `encryptor.dfy`.

- `XorCycle` is the reference transform on byte sequences (`seq<bv8>`).
  `XorCycleAt` gives its pointwise meaning, `XorCycleInvolution` the
  round trip.
- `Transform` is the source's `for` loop over an `array<bv8>` buffer, with
  the key held in a 100-byte array as in `char key[100]`. It is proved
  equal to `XorCycle` of the old buffer contents.
- `EncryptOutcome` specifies `Encrypt`. Its inputs are the input file and
  the key file (each either unopenable or a byte sequence) and whether the
  output file opens. It returns the return code and the sequence of visible
  effects: opening a file, allocating the input buffer, running the
  transform, writing the output. `Encrypt` is the imperative version, which
  allocates the buffers, calls `Transform` and is proved to meet
  `EncryptOutcome`.
- `Dispatch` is `main` as written. `DispatchIntended` is the dispatch the
  comments and the usage text describe (see "## Findings").

File I/O (`fopen`, `fseek`/`ftell`, `fread`, `fwrite`, `fclose`) is not
modelled as such. A file is a parameter: either `Unopenable` or
`Readable(bytes)`. Whether the output opens is a boolean parameter. What the
tool writes is the `Write` effect.

`main.cpp` loads the whole input into one buffer (main.cpp:85, 94) and
reports no progress while it transforms; the model follows it.

## Model

| member | source | states |
|---|---|---|
| `Encryptor.XorCycle` | main.cpp:148-151 | the transformed sequence has exactly as many bytes as the input |
| `Encryptor.XorCycleAt` | main.cpp:148-151 | byte i of the output is input byte i XOR key byte i mod key length, for every i in range |
| `Encryptor.XorCycleUnique` | main.cpp:148-151 | any sequence of the input's length that obeys the per-byte rule at every position is the transform |
| `Encryptor.XorCycleInvolution` | main.cpp:5-15 | transforming twice with the same key gives the original bytes: one key file both encrypts and decrypts |
| `Encryptor.XorCycleExample` | main.cpp:148-151 | "ABCDE" with key [0x01, 0x02] becomes [0x40, 0x40, 0x42, 0x46, 0x44], and that output transforms back to "ABCDE" |
| `Encryptor.KeyIndex` | main.cpp:142-150 | for a key size between 1 and 100, the index `i % keyFileSize` is below the key size and inside `key[100]` |
| `Encryptor.Transform` | main.cpp:148-151 | after the loop the buffer is the XOR transform of its old contents with the first `keyFileSize` key bytes; the key buffer is unchanged; the loop invariant keeps visited positions transformed and unvisited ones as they were |
| `Encryptor.EncryptOutcome` | main.cpp:51-183 | the code is always 0, -1 or -2; -2 exactly when the input opens and has at most one byte; 0 exactly when all three files open and the input has more than one byte, and the output then holds the transformed input; on every failure nothing is written; the input is always opened first; an unopenable or too-small input leaves only the input `fopen` in the trace; the output file is opened only when the input had more than one byte and the key file opened |
| `Encryptor.Encrypt` | main.cpp:51-183 | loading the input into a fresh buffer, loading the key into a 100-byte buffer, transforming in place and writing the buffer gives exactly the code and effects of `EncryptOutcome` |
| `Encryptor.EncryptOutputPointwise` | main.cpp:171-173 | on success the written output has the input's size and byte i is input byte i XOR key byte i mod key size |
| `Encryptor.EncryptRoundTrip` | main.cpp:11-15 | `Encrypt`, called on its own output with the same key, succeeds and writes back the original input; `main` as written never calls it with three paths (see Findings) |
| `Encryptor.LateFailureTraces` | main.cpp:109-169 | for an input of more than one byte, a key file that cannot be opened gives -1 with exactly the trace open input, allocate, open key; an output file that cannot be opened gives -1 with exactly that trace followed by the transform and the output `fopen`, and no write |
| `Encryptor.EffectsInOrder` | main.cpp:85-173 | the output file is opened only after the transform has run, the key file only after the input buffer is allocated, and the write only after the output file is opened |
| `Encryptor.ArgAt` | main.cpp:46 | `argv[i]` is `Given(args[i])`, the i-th argument string, below `argc`, the null pointer at `argc`, and out of range beyond it |
| `Encryptor.Dispatch` | main.cpp:28-49 | the status is 0 in every case; the hint is shown exactly when `argc` is 1 or above 3; usage exactly when `argc` is 2 and `argv[1]` starts with `-h` (`IsHelpFlag`, the test at main.cpp:39 on a nul-terminated string); otherwise `Encrypt` is called, exactly when `argc` is 0, 3, or 2 without `-h`, with `argv[1]`, `argv[2]`, `argv[3]` |
| `Encryptor.DispatchThreePathsShowsHint` | main.cpp:30-35 | as written, the documented call with three file names (`argc` 4) only prints the hint |
| `Encryptor.DispatchPassesMissingPaths` | main.cpp:37-46 | as written, whenever `Encrypt` is called its output path is a null pointer or past the end of `argv` |
| `Encryptor.DispatchIntended` | main.cpp:30-46 | the corrected dispatch calls `Encrypt` exactly when three file names are given, passing them; usage exactly for a single `-h...` argument; the status is 0 |
| `Encryptor.DispatchIntendedAgrees` | main.cpp:30-43 | apart from `argc` 4, the corrected dispatch shows usage exactly when the written one does, and agrees with it whenever `argc` is 1 or above 4 |

## Findings

| source | as written | input that shows it | evidently intended | confidence | as-written member | corrected member |
|---|---|---|---|---|---|---|
| main.cpp:31 | `argc > 3` sends the hint for every `argc` of 4 or more, and `argc` counts the program name | `encryptor in.bin key.txt out.bin` (`argc` 4) prints the hint and never encrypts | the comment at line 30 ("more than 3 arguments") and the usage text at line 41 mean three user arguments run the transform, so the bound is `argc > 4` | high; not executed | `Encryptor.DispatchThreePathsShowsHint` | `Encryptor.DispatchIntended` |
| main.cpp:37-46 | `argc` 2 without `-h` and `argc` 3 fall through to `Encrypt(argv[1], argv[2], argv[3])` | `encryptor in.bin key.txt` (`argc` 3) passes the null `argv[3]` as the output path; `encryptor x` reads `argv[3]` past the end of `argv` | the comment at line 45 says only a call with three arguments reaches `Encrypt` | high; not executed | `Encryptor.DispatchPassesMissingPaths` | `Encryptor.DispatchIntended` |

## Left out

- File I/O is abstract. Files are parameters (`Source`, `outputOpens`) and the written bytes are the `Write` effect. `fclose` and `delete[]` are not modelled. Neither are the leaks on early exits: the -2 exit leaves the input file open, and the -1 exits after allocation never free `inBuffer`.
- The `consoleOutput` echo (main.cpp:22, 96-104, 126-133, 153-160) and all `printf`/`puts` status text are left out. They only print. The program name in the hint and usage text is not modelled.
- The -3 branch for a null result of `new` (main.cpp:87-91) is left out. Standard `new` throws instead of returning null, so the branch cannot be reached.
- Key files of 0 bytes or more than 100 bytes are excluded by the precondition `KeyDefined`. The first makes `i % keyFileSize` divide by zero. The second overflows `key[100]` in `fread`. Both are undefined behaviour in C++.
- `mainFileSize` and `keyFileSize` hold `ftell`'s `long` result in an `int`. Files of 2 GiB or more would truncate. The model uses unbounded sizes.
- Signed versus unsigned `char` is not modelled. Bytes are `bv8`, and XOR gives the same bits either way.
- `fread` and `fwrite` are assumed to move the full byte count. Short reads and short writes are not modelled.
- What happens after `Encrypt` is called with a null or out-of-range path is not modelled. `Dispatch` only records which `argv` slots the call receives.
