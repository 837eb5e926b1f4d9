# HideStaticReferences: the string-masking scheme

HideStaticReferences is a Windows proof of concept. It keeps the names of the
modules and functions it calls out of the compiled binary's string data.
Every name is a stack array of bytes. Each byte is written as `XOR(c, key)`,
followed by a NUL terminator. The `XOR_STRING(input, key)` macro unmasks a
name in place just before a Windows call needs it. Some names are masked
again afterwards: `k32` and `getprocaddress` on every path, `user32` and
`msgboxA` only when `LoadLibraryA` succeeds, and `hello_message` never.

This project models that scheme in Dafny, in two modules:

- `StringMask` (`string_mask.dfy`) models the byte transform `XOR` and C's
  `strlen`. It models `XOR_STRING` as the method `XorStringInPlace` on an
  `array<bv8>`, specified by the function `XorString`. It also holds the
  generic masked literal and the lemmas about all of these.
  - The main result is `XorStringRoundTrip`. Masking twice with one key
    restores a buffer exactly when no byte before its terminator equals the
    key.
  - The length is taken with `strlen` once, before the loop. If a byte equals
    the key, the first pass writes a NUL there, and the second pass stops at
    that NUL. `KeyByteBreaksRoundTrip` shows such an input.
- `HiddenMessageBox` (`hidden_message_box.dfy`) models the five literals
  exactly as the source writes them, byte by byte. It models the function
  `HiddenMessageBox` as a method.
  - The Windows calls are not executed. The method records each call with the
    contents of the buffer it is handed.
  - Two inputs stand for the outcomes of those calls. `libraryLoaded` is
    whether `LoadLibraryA` succeeded. `messageBoxFound` is whether the
    `MessageBoxA` pointer was found.
  - The method proves two things. Every call receives a buffer holding the
    plaintext name and its NUL. The buffers end in the state the source leaves
    them in.
  - The steps are proved once, in `MaskedCalls`, for any plaintexts with no
    NUL and no key character. `HiddenMessageBox` applies them to the five
    literals of the source.
  - `k32` and `getprocaddress` are masked again on every path. `user32` and
    `msgboxA` are masked again only inside the `if (LoadLibraryA(user32))`
    branch. `hello_message` is never masked again.

Bytes are `bv8`. The signedness of C's `char` plays no part in XOR, so the
model does not represent it. Characters are written as their ASCII codes;
a comment beside each literal gives the text.

`XOR_STRING` is not an unconditional involution. It XORs only the bytes
before the first NUL, so two passes restore a buffer exactly when `KeyFree`
holds (`XorStringRoundTrip`).

## Model

| member | source | states |
|---|---|---|
| `StringMask.Xor` | HideStaticReferences.cpp:11-14 | Applying `XOR` twice with one key returns the byte. It changes the byte exactly when the key is nonzero. It yields NUL exactly when the byte equals the key. |
| `StringMask.Strlen` | HideStaticReferences.cpp:9 | `strlen` is the index of the first NUL. It is in bounds, it points at a NUL, and no earlier byte is NUL. |
| `StringMask.XorPrefix` | HideStaticReferences.cpp:9 | The result keeps the length. Each of the first `n` bytes is XORed with the key. Every later byte is unchanged. |
| `StringMask.XorString` | HideStaticReferences.cpp:9 | The macro keeps the buffer length. It XORs every byte below the original `strlen`, even after an earlier write has made a NUL. It keeps the terminator and everything after it. |
| `StringMask.XorStringInPlace` | HideStaticReferences.cpp:9 | The in-place loop leaves the array equal to `XorString` of its old contents. Each index below the original length becomes `old ^ key`. Every other index is unchanged. |
| `StringMask.StrlenAfterXorString` | HideStaticReferences.cpp:9 | After one pass, `strlen` is never longer. It is equal exactly when no prefix byte equals the key. Otherwise it stops at the first byte that equalled the key. |
| `StringMask.XorStringRoundTrip` | HideStaticReferences.cpp:9 | Two passes with one key restore the buffer if and only if no byte before the terminator equals the key. |
| `StringMask.KeyByteBreaksRoundTrip` | HideStaticReferences.cpp:9 | Counterexample: the buffer `"iA\0"` does not survive two passes with key `0x69`. |
| `StringMask.XorStringZeroKey` | HideStaticReferences.cpp:9 | With key zero, the macro leaves the buffer unchanged. |
| `StringMask.MaskedLiteral` | HideStaticReferences.cpp:22-28 | A masked literal is one byte longer than its plaintext and ends in NUL. Each byte XORed with the key gives back the plaintext character. |
| `StringMask.UnmaskLiteral` | HideStaticReferences.cpp:31-34 | Unmasking a masked literal gives the plaintext and its NUL if and only if no character equals the key. In that case its `strlen` is the plaintext length. |
| `StringMask.RemaskLiteral` | HideStaticReferences.cpp:38-39 | Masking the plaintext again with the same key gives back the masked literal it came from. |
| `HiddenMessageBox.Kernel32Literal` | HideStaticReferences.cpp:22 | `k32` is "KERNEL32.DLL" masked with 0x69. No character is NUL or 0x69. |
| `HiddenMessageBox.User32Literal` | HideStaticReferences.cpp:24 | `user32` is "USER32.DLL" masked with 0x69. Its terminator `XOR('\0', 0x00)` is NUL. No character is NUL or 0x69. |
| `HiddenMessageBox.MessageBoxALiteral` | HideStaticReferences.cpp:26 | `msgboxA` is "MessageBoxA" masked with 0x11. No character is NUL or 0x11. |
| `HiddenMessageBox.GetProcAddressLiteral` | HideStaticReferences.cpp:28 | `getprocaddress` is "GetProcAddress" masked with 0x15. No character is NUL or 0x15. |
| `HiddenMessageBox.HelloLiteral` | HideStaticReferences.cpp:54 | `hello_message` is "Hello" masked with 0x25. No character is NUL or 0x25. |
| `HiddenMessageBox.Unmask` | HideStaticReferences.cpp:31-34 | After `XOR_STRING`, a buffer holding a masked literal holds the plaintext and its NUL. |
| `HiddenMessageBox.Remask` | HideStaticReferences.cpp:38-39 | After `XOR_STRING`, a buffer holding the plaintext holds the original masked literal again. |
| `HiddenMessageBox.MessageBoxBranch` | HideStaticReferences.cpp:41-58 | `GetModuleHandleA` receives the plaintext of `user32` and `GetProcAddress` the plaintext of `msgboxA`. Both buffers are then masked again. If the lookup succeeded, `MessageBoxA` receives the plaintext of `hello_message`, which stays plaintext. |
| `HiddenMessageBox.MaskedCalls` | HideStaticReferences.cpp:22-58 | For any plaintexts with no NUL and no key character, gives the calls in order, each handed its unmasked buffer. Gives which buffers end masked on each path. |
| `HiddenMessageBox.HiddenMessageBox` | HideStaticReferences.cpp:16-59 | Gives the whole sequence of Windows calls, each with the NUL-terminated plaintext name it receives. `k32` and `getprocaddress` end masked. `user32` and `msgboxA` end masked only when `LoadLibraryA` succeeded. `hello_message` ends in plaintext. |

## Left out

- Win32 calls are represented only by the contents of the buffers they receive. These are `GetModuleHandleA`, `GetProcAddress`, `LoadLibraryA` and `MessageBoxA`. The results of `LoadLibraryA` and of the `MessageBoxA` lookup become the inputs `libraryLoaded` and `messageBoxFound`. The function-pointer typedefs and casts are omitted. The other arguments of `MessageBoxA` are omitted.
- The source has no manual export-directory resolver. Lines 36 and 44 mention one only as future work, and the code calls `GetProcAddress`. The model therefore has no resolver either.
- The claim that no plaintext survives in the compiled binary is left out. It depends on `__forceinline` and the optimizer, not on the program's meaning.
- `main` is left out because it is entry-point glue.
- `HiddenMessageBox.HiddenMessageBox`: assumes the `GetProcAddress` result stored in `_getProcAddr_addr` at line 36 is non-null. Line 47 calls through that pointer without a check, so a null result would be a call through a null pointer, and the re-masks at lines 49-50 would never run. That path is not modelled.
- `HiddenMessageBox.HiddenMessageBox`: the handles returned by the two `GetModuleHandleA` calls (lines 36 and 47) are dropped. Only the buffer each call receives is recorded.
- Signedness of `char` is left out. Every byte is treated as an 8-bit value.
- Runs of more than two mask/unmask calls on one buffer are not modelled. Only the single round trip, `XorStringRoundTrip`, is proved.
- `HiddenMessageBox.Unmask`: requires a plaintext with no NUL and no key character. The source applies it only to its own literals, which meet this. For any other buffer the general result is `StringMask.XorStringInPlace`.
- `HiddenMessageBox.Remask`: has the same requirement as `Unmask`, for the same reason.
