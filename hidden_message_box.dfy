/** `HiddenMessageBox` of HideStaticReferences.cpp: five masked literals are
    built on the stack and unmasked with `XOR_STRING` just before the Windows
    calls that need them. `k32` and `getprocaddress` are re-masked on every
    path, `user32` and `msgboxA` only when `LoadLibraryA` succeeds, and
    `hello_message` never. The Windows calls
    themselves are not modelled; the model records the contents of the buffer
    each one is handed. */
module HiddenMessageBox {
  import opened StringMask

  /** The plaintexts, one byte per character. */
  const Kernel32Name: seq<byte> := [0x4B, 0x45, 0x52, 0x4E, 0x45, 0x4C, 0x33, 0x32, 0x2E, 0x44, 0x4C, 0x4C]  // "KERNEL32.DLL"
  const User32Name: seq<byte> := [0x55, 0x53, 0x45, 0x52, 0x33, 0x32, 0x2E, 0x44, 0x4C, 0x4C]  // "USER32.DLL"
  const MessageBoxAName: seq<byte> := [0x4D, 0x65, 0x73, 0x73, 0x61, 0x67, 0x65, 0x42, 0x6F, 0x78, 0x41]  // "MessageBoxA"
  const GetProcAddressName: seq<byte> := [0x47, 0x65, 0x74, 0x50, 0x72, 0x6F, 0x63, 0x41, 0x64, 0x64, 0x72, 0x65, 0x73, 0x73]  // "GetProcAddress"
  const HelloText: seq<byte> := [0x48, 0x65, 0x6C, 0x6C, 0x6F]  // "Hello"

  /** `k32`: "KERNEL32.DLL" masked with 0x69. */
  const K32Masked: seq<byte> :=
    [Xor(0x4B, 0x69), Xor(0x45, 0x69), Xor(0x52, 0x69), Xor(0x4E, 0x69),
     Xor(0x45, 0x69), Xor(0x4C, 0x69), Xor(0x33, 0x69), Xor(0x32, 0x69),
     Xor(0x2E, 0x69), Xor(0x44, 0x69), Xor(0x4C, 0x69), Xor(0x4C, 0x69), 0x00]

  /** `user32`: "USER32.DLL" masked with 0x69; its terminator is itself written
      as `XOR('\0', 0x00)`. */
  const User32Masked: seq<byte> :=
    [Xor(0x55, 0x69), Xor(0x53, 0x69), Xor(0x45, 0x69), Xor(0x52, 0x69),
     Xor(0x33, 0x69), Xor(0x32, 0x69), Xor(0x2E, 0x69), Xor(0x44, 0x69),
     Xor(0x4C, 0x69), Xor(0x4C, 0x69), Xor(0x00, 0x00)]

  /** `msgboxA`: "MessageBoxA" masked with 0x11. */
  const MessageBoxAMasked: seq<byte> :=
    [Xor(0x4D, 0x11), Xor(0x65, 0x11), Xor(0x73, 0x11), Xor(0x73, 0x11),
     Xor(0x61, 0x11), Xor(0x67, 0x11), Xor(0x65, 0x11), Xor(0x42, 0x11),
     Xor(0x6F, 0x11), Xor(0x78, 0x11), Xor(0x41, 0x11), 0x00]

  /** `getprocaddress`: "GetProcAddress" masked with 0x15. */
  const GetProcAddressMasked: seq<byte> :=
    [Xor(0x47, 0x15), Xor(0x65, 0x15), Xor(0x74, 0x15), Xor(0x50, 0x15),
     Xor(0x72, 0x15), Xor(0x6F, 0x15), Xor(0x63, 0x15), Xor(0x41, 0x15),
     Xor(0x64, 0x15), Xor(0x64, 0x15), Xor(0x72, 0x15), Xor(0x65, 0x15),
     Xor(0x73, 0x15), Xor(0x73, 0x15), 0x00]

  /** `hello_message`: "Hello" masked with 0x25. */
  const HelloMasked: seq<byte> :=
    [Xor(0x48, 0x25), Xor(0x65, 0x25), Xor(0x6C, 0x25), Xor(0x6C, 0x25),
     Xor(0x6F, 0x25), 0x00]

  /** A Windows call, with the contents of the NUL-terminated buffer it is
      handed. */
  datatype ApiCall =
    | GetModuleHandleA(moduleName: seq<byte>)
    | GetProcAddress(procName: seq<byte>)
    | LoadLibraryA(libraryName: seq<byte>)
    | MessageBoxA(text: seq<byte>)

  datatype Option<T> = None | Some(value: T)

  /** The contents of the stack buffers when `HiddenMessageBox` returns;
      `hello` is `None` on the paths that never declare `hello_message`. */
  datatype Buffers = Buffers(
    k32: seq<byte>, user32: seq<byte>, msgBoxA: seq<byte>, getProcAddress: seq<byte>,
    hello: Option<seq<byte>>)

  /** `k32` is its plaintext masked with 0x69; no plaintext character is NUL
      or equal to the key, so one `XOR_STRING` restores it whole. */
  lemma Kernel32Literal()
    ensures K32Masked == MaskedLiteral(Kernel32Name, 0x69)
    ensures 0 !in Kernel32Name && 0x69 !in Kernel32Name
  {
  }

  /** `user32` is its plaintext masked with 0x69; no plaintext character is NUL
      or equal to the key, so one `XOR_STRING` restores it whole. Its terminator
      `XOR('\0', 0x00)` is NUL. */
  lemma User32Literal()
    ensures User32Masked == MaskedLiteral(User32Name, 0x69)
    ensures 0 !in User32Name && 0x69 !in User32Name
  {
  }

  /** `msgboxA` is its plaintext masked with 0x11; no plaintext character is NUL
      or equal to the key, so one `XOR_STRING` restores it whole. */
  lemma MessageBoxALiteral()
    ensures MessageBoxAMasked == MaskedLiteral(MessageBoxAName, 0x11)
    ensures 0 !in MessageBoxAName && 0x11 !in MessageBoxAName
  {
  }

  /** `getprocaddress` is its plaintext masked with 0x15; no plaintext character is NUL
      or equal to the key, so one `XOR_STRING` restores it whole. */
  lemma GetProcAddressLiteral()
    ensures GetProcAddressMasked == MaskedLiteral(GetProcAddressName, 0x15)
    ensures 0 !in GetProcAddressName && 0x15 !in GetProcAddressName
  {
  }

  /** `hello_message` is its plaintext masked with 0x25; no plaintext character is NUL
      or equal to the key, so one `XOR_STRING` restores it whole. */
  lemma HelloLiteral()
    ensures HelloMasked == MaskedLiteral(HelloText, 0x25)
    ensures 0 !in HelloText && 0x25 !in HelloText
  {
  }

  /** Creates a stack buffer holding `init`. */
  method StackBuffer(init: seq<byte>) returns (buf: array<byte>)
    ensures fresh(buf) && buf[..] == init
  {
    buf := new byte[|init|](i requires 0 <= i < |init| => init[i]);
  }

  /** `XOR_STRING` on a buffer holding a masked literal whose plaintext has no
      key character: afterwards it holds the plaintext and its NUL. */
  method Unmask(buf: array<byte>, ghost plain: seq<byte>, key: byte)
    requires buf[..] == MaskedLiteral(plain, key) && 0 !in plain && key !in plain
    modifies buf
    ensures buf[..] == plain + [0]
  {
    UnmaskLiteral(plain, key);
    XorStringInPlace(buf, key);
  }

  /** `XOR_STRING` on a buffer holding a plaintext with no key character:
      afterwards it holds the masked literal again. */
  method Remask(buf: array<byte>, ghost plain: seq<byte>, key: byte)
    requires buf[..] == plain + [0] && 0 !in plain && key !in plain
    modifies buf
    ensures buf[..] == MaskedLiteral(plain, key)
  {
    RemaskLiteral(plain, key);
    XorStringInPlace(buf, key);
  }

  /** The five plaintexts `HiddenMessageBox` masks, one per stack buffer. */
  datatype Plaintexts = Plaintexts(
    k32: seq<byte>, user32: seq<byte>, msgBoxA: seq<byte>, getProcAddress: seq<byte>,
    hello: seq<byte>)
  {
    /** No plaintext holds a NUL or its own buffer's key. */
    predicate Maskable() {
      0 !in k32 && 0x69 !in k32 && 0 !in user32 && 0x69 !in user32
      && 0 !in msgBoxA && 0x11 !in msgBoxA && 0 !in getProcAddress && 0x15 !in getProcAddress
      && 0 !in hello && 0x25 !in hello
    }
  }

  /** The plaintexts of the source's literals. */
  const SourcePlaintexts: Plaintexts :=
    Plaintexts(Kernel32Name, User32Name, MessageBoxAName, GetProcAddressName, HelloText)

  /** The body of `if (LoadLibraryA(user32))`: `MessageBoxA` is looked up with
      the plaintext `user32` and `msgboxA`, both are masked again, and when the
      lookup succeeded `hello_message` is unmasked and shown. */
  method MessageBoxBranch(
    texts: Plaintexts, user32: array<byte>, msgBoxA: array<byte>, messageBoxFound: bool)
    returns (calls: seq<ApiCall>, hello: Option<seq<byte>>)
    requires texts.Maskable() && user32 != msgBoxA
    requires user32[..] == texts.user32 + [0] && msgBoxA[..] == texts.msgBoxA + [0]
    modifies user32, msgBoxA
    ensures calls ==
      [GetModuleHandleA(texts.user32 + [0]), GetProcAddress(texts.msgBoxA + [0])]
      + (if messageBoxFound then [MessageBoxA(texts.hello + [0])] else [])
    ensures user32[..] == MaskedLiteral(texts.user32, 0x69)
    ensures msgBoxA[..] == MaskedLiteral(texts.msgBoxA, 0x11)
    ensures hello == if messageBoxFound then Some(texts.hello + [0]) else None
  {
    calls := [GetModuleHandleA(user32[..]), GetProcAddress(msgBoxA[..])];

    Remask(user32, texts.user32, 0x69);
    Remask(msgBoxA, texts.msgBoxA, 0x11);

    hello := None;
    if messageBoxFound {
      var helloMessage := StackBuffer(MaskedLiteral(texts.hello, 0x25));
      Unmask(helloMessage, texts.hello, 0x25);
      calls := calls + [MessageBoxA(helloMessage[..])];
      hello := Some(helloMessage[..]);
    }
  }

  /** The steps of `HiddenMessageBox` for any plaintexts that can be masked
      with its keys: each buffer starts as its masked literal, is unmasked
      before the call that reads it and masked again after. */
  method MaskedCalls(texts: Plaintexts, libraryLoaded: bool, messageBoxFound: bool)
    returns (calls: seq<ApiCall>, atReturn: Buffers)
    requires texts.Maskable()
    ensures calls ==
      [GetModuleHandleA(texts.k32 + [0]), GetProcAddress(texts.getProcAddress + [0]), LoadLibraryA(texts.user32 + [0])]
      + (if libraryLoaded then
           [GetModuleHandleA(texts.user32 + [0]), GetProcAddress(texts.msgBoxA + [0])]
           + (if messageBoxFound then [MessageBoxA(texts.hello + [0])] else [])
         else [])
    ensures atReturn.k32 == MaskedLiteral(texts.k32, 0x69)
    ensures atReturn.getProcAddress == MaskedLiteral(texts.getProcAddress, 0x15)
    ensures atReturn.user32 == if libraryLoaded then MaskedLiteral(texts.user32, 0x69) else texts.user32 + [0]
    ensures atReturn.msgBoxA == if libraryLoaded then MaskedLiteral(texts.msgBoxA, 0x11) else texts.msgBoxA + [0]
    ensures atReturn.hello == if libraryLoaded && messageBoxFound then Some(texts.hello + [0]) else None
  {
    var k32 := StackBuffer(MaskedLiteral(texts.k32, 0x69));
    var user32 := StackBuffer(MaskedLiteral(texts.user32, 0x69));
    var msgBoxA := StackBuffer(MaskedLiteral(texts.msgBoxA, 0x11));
    var getProcAddress := StackBuffer(MaskedLiteral(texts.getProcAddress, 0x15));

    Unmask(k32, texts.k32, 0x69);
    Unmask(user32, texts.user32, 0x69);
    Unmask(msgBoxA, texts.msgBoxA, 0x11);
    Unmask(getProcAddress, texts.getProcAddress, 0x15);

    calls := [GetModuleHandleA(k32[..]), GetProcAddress(getProcAddress[..])];

    Remask(k32, texts.k32, 0x69);
    Remask(getProcAddress, texts.getProcAddress, 0x15);

    calls := calls + [LoadLibraryA(user32[..])];
    var hello: Option<seq<byte>> := None;
    if libraryLoaded {
      var branchCalls;
      branchCalls, hello := MessageBoxBranch(texts, user32, msgBoxA, messageBoxFound);
      calls := calls + branchCalls;
    }
    atReturn := Buffers(k32[..], user32[..], msgBoxA[..], getProcAddress[..], hello);
  }

  /** `HiddenMessageBox`. `libraryLoaded` stands for `LoadLibraryA(user32)`
      returning a handle and `messageBoxFound` for the resolved `MessageBoxA`
      pointer being non-null. Every Windows call is handed the plaintext name;
      `k32` and `getprocaddress` are masked again before return, `user32` and
      `msgboxA` only on the path where the library loaded, and `hello_message`
      is left in plaintext. */
  method HiddenMessageBox(libraryLoaded: bool, messageBoxFound: bool)
    returns (calls: seq<ApiCall>, atReturn: Buffers)
    ensures calls ==
      [GetModuleHandleA(Kernel32Name + [0]), GetProcAddress(GetProcAddressName + [0]),
       LoadLibraryA(User32Name + [0])]
      + (if libraryLoaded then
           [GetModuleHandleA(User32Name + [0]), GetProcAddress(MessageBoxAName + [0])]
           + (if messageBoxFound then [MessageBoxA(HelloText + [0])] else [])
         else [])
    ensures atReturn.k32 == K32Masked && atReturn.getProcAddress == GetProcAddressMasked
    ensures atReturn.user32 == if libraryLoaded then User32Masked else User32Name + [0]
    ensures atReturn.msgBoxA == if libraryLoaded then MessageBoxAMasked else MessageBoxAName + [0]
    ensures atReturn.hello == if libraryLoaded && messageBoxFound then Some(HelloText + [0]) else None
  {
    Kernel32Literal();
    User32Literal();
    MessageBoxALiteral();
    GetProcAddressLiteral();
    HelloLiteral();
    calls, atReturn := MaskedCalls(SourcePlaintexts, libraryLoaded, messageBoxFound);
  }
}
