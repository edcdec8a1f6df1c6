# Register-descriptor table of the compilation context

This project models the compilation context of a C-to-RISC-V code
generator. Every AST node receives this context during emission. It holds
two tables:

- a symbol table that maps names to a declared type and an address
  descriptor (static address, stack-pointer offset, register name);
- a register table that maps register names to register descriptors, each
  a name plus a content string.

Constructing a context runs `initRegs` three times: for the argument class
`a` up to index 7, the saved class `s` up to 11 and the temporary class `t`
up to 6. It then adds the special registers `tp`, `sp`, `gp`, `ra` (content
`"none"`) and `zero` (content `"0"`). `initRegs(name, amount)` loops over
`i = 0 .. amount` with the bound included. For each `i` it stores a free
descriptor named `name + to_string(i)` under that name. The symbol table
starts empty and is never touched.

The model has three modules:

- `Decimal` (decimal.dfy): the decimal rendering of a non-negative index,
  with the reading that inverts it.
- `AstRegister` (register.dfy): the `Register` record and its default
  constructor.
- `AstContext` (context.dfy): the address descriptor, the symbol record and
  the context. `InitRegs` is a method whose loop mirrors the source's `for`
  loop. `InitRegsSpec` is its declarative counterpart: the old table
  overridden by free descriptors for the generated names. `NewContext` is the
  constructor.

The properties proved about the constructor are:

- the key set is exactly the 32 integer-register names of the Register
  Convention table of the RISC-V ELF psABI (a0-a7, s0-s11, t0-t6, zero, ra,
  sp, gp, tp);
- the table has 32 entries: 8 + 12 + 7 + 5;
- every descriptor carries its key as its name;
- `zero` holds "0" and every other register holds "none";
- no special name can collide with a numbered one.

The inclusive loop bound is what gives a7, s11 and t6 their entries.

## Model

| member | source | states |
|---|---|---|
| `Decimal.FromNat` | src/ast_context.cpp:7 | The decimal text of an index is a canonical numeral: non-empty, digits only, no leading zero except for "0". It is one digit exactly when the index is below 10. |
| `Decimal.ToNatFromNat` | src/ast_context.cpp:7 | Reading the rendered numeral back gives the index. |
| `Decimal.FromNatInjective` | src/ast_context.cpp:7 | Two indices render to the same text if and only if they are equal. |
| `Decimal.FromNatToNat` | src/ast_context.cpp:7 | Every canonical numeral is the rendering of the number it denotes. |
| `AstRegister.DefaultRegister` | include/ast_register.hpp:9 | The default constructor gives an empty name and an empty content. That content is neither the free marker "none" nor the zero register's "0". |
| `AstContext.InitRegs` | src/ast_context.cpp:3-10 | The loop leaves the symbol table unchanged. Keys become the old keys plus prefix+0 .. prefix+amount. Each generated key holds a free descriptor named after it; every other entry is unchanged. |
| `AstContext.InitRegsMatchesSpec` | src/ast_context.cpp:5-8 | Any context satisfying the loop's postcondition equals the declarative result: the old table overridden by free descriptors for the generated names. |
| `AstContext.InitRegsKeys` | src/ast_context.cpp:5-8 | After the call, a key is present exactly when it was present before or equals prefix+i for some 0 <= i <= amount. |
| `AstContext.InitRegsInclusiveBound` | src/ast_context.cpp:5 | For amount >= 0, prefix+amount itself is present and free. |
| `AstContext.InitRegsNegativeAmount` | src/ast_context.cpp:5 | With a negative amount the context is returned unchanged. |
| `AstContext.InitRegsIdempotent` | src/ast_context.cpp:8 | Calling it twice with the same arguments equals calling it once. |
| `AstContext.InitRegsSize` | src/ast_context.cpp:5-8 | The table grows by at most amount+1 entries. It grows by exactly amount+1 when no generated name was present. |
| `AstContext.InitRegsWellNamed` | src/ast_context.cpp:7-8 | If every descriptor is named after its key before the call, the same holds after it. |
| `AstContext.RegisterName` | src/ast_context.cpp:7 | `name + to_string(i)` is longer than the prefix, starts with the prefix and continues with a canonical decimal numeral. |
| `AstContext.RegisterNameIndex` | src/ast_context.cpp:7 | Reading the digits after the prefix of a register name gives back its index. |
| `AstContext.NumberedNamesMembership` | src/ast_context.cpp:5-7 | The generated names are exactly prefix+to_string(i) for 0 <= i <= amount. |
| `AstContext.RegisterNameInjective` | src/ast_context.cpp:7 | Within one class, two indices give the same name if and only if they are equal. |
| `AstContext.NumberedNamesSize` | src/ast_context.cpp:5-7 | The indices 0..amount give amount+1 distinct names. |
| `AstContext.NumberedNameShape` | src/ast_context.cpp:7 | Every generated name is the prefix followed by a canonical numeral. |
| `AstContext.SpecialNamesNotNumbered` | include/ast_context.hpp:36-40 | No special name equals prefix+to_string(i) for any prefix and index. Each special name ends in a letter, while every numeral ends in a digit. |
| `AstContext.SpecialsDisjoint` | include/ast_context.hpp:33-40 | No class's generated names include a special register name. |
| `AstContext.ClassesDisjoint` | include/ast_context.hpp:33-35 | Classes with distinct prefixes of the same length generate disjoint name sets. |
| `AstContext.ArgumentNames` | include/ast_context.hpp:33 | initRegs("a", 7) generates exactly a0 .. a7. |
| `AstContext.SavedNames` | include/ast_context.hpp:34 | initRegs("s", 11) generates exactly s0 .. s11. |
| `AstContext.TemporaryNames` | include/ast_context.hpp:35 | initRegs("t", 6) generates exactly t0 .. t6. |
| `AstContext.SpecialNamesSize` | include/ast_context.hpp:36-40 | The five special names are distinct. |
| `AstContext.AddSpecials` | include/ast_context.hpp:36-40 | The five assignments add exactly tp, sp, gp, ra and zero to the keys. tp, sp, gp and ra hold a free descriptor named after the key, and zero holds Register("zero", "0"). Every other entry keeps its old descriptor, whatever it was. |
| `AstContext.AddSpecialsEntries` | include/ast_context.hpp:36-40 | Start from a table of free, self-named descriptors and add the specials. Every entry stays named after its key. zero holds "0" and every other entry is free. |
| `AstContext.ClassesSize` | include/ast_context.hpp:33-40 | Three classes with distinct one-letter prefixes and indices up to m, n and o, plus the specials, have m+n+o+8 names. |
| `AstContext.ConstructedNames` | include/ast_context.hpp:33-40 | The constructor's three classes plus the specials are exactly the 32 psABI integer register names. |
| `AstContext.ConstructedKeys` | include/ast_context.hpp:33-40 | Adding the specials to a table whose keys are the three numbered classes gives exactly the 32 ABI names, and so 32 entries. |
| `AstContext.NewContext` | include/ast_context.hpp:31-42 | The constructor leaves the symbol table empty. The register keys are exactly the 32 ABI integer register names, so there are 32 entries. Each descriptor is named after its key; zero holds "0" and every other register "none". |

## Left out

- `FunctionDefinition` (include/ast_function_definition.hpp) is not modelled. Only its declaration is visible. Its `EmitRISC` and `Print` bodies and `ast_node.hpp` are not part of this model. Its three-argument constructor leaves `declaration_list_` uninitialised, yet the destructor deletes it; that is undefined behaviour, not behaviour to model.
- Register allocate and free, symbol declare, lookup and bind, scoping, and assembly emission are not modelled. The source declares no such operation on `Context` (include/ast_context.hpp:44-45 leaves the rest of the class empty), so there is nothing to model.
- Output streams and the emitted assembly text are I/O and are left out.
- InitRegs: requires `amount < INT_MAX`. With `amount == INT_MAX` the counter `i++` would overflow a signed `int`, which is undefined behaviour in C++.
- `std::to_string` is modelled only for non-negative arguments, the only ones the loop passes. The sign handling for negative numbers is left out.
- The source mutates `_registers` in place. The model returns a new `Context` value instead; the in-place update has no further observable effect.
- The two-argument `Register` constructor is the datatype constructor `Register(name, content)`, whose fields are its arguments by definition. No separate member states it.
- That a symbol record holds one type and exactly one address descriptor follows from the `SymbolRecord` datatype's type. No lemma states it.
- `address_descriptor_t` always carries all three fields (static address, stack-pointer offset, register), and nothing protects the `zero` entry after construction. The model follows the source and states no invariant beyond these.
