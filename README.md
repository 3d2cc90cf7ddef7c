# steel, modelled in Dafny

steel is a declarative binary-format library for Python. A file format is
declared as a structure class whose attributes are fields: integers of a
given size, byte order and signing; strings framed by a terminator, padding
or a length prefix; fixed literals; raw bytes; lists of a field; reserved
padding; checksums over a run of fields; and condition blocks whose fields
are present only when an earlier field has a given value. An instance of the
structure reads its fields lazily from a byte source. It can also be built
empty, populated by assignment and saved, or fed its bytes in pieces. Bit
structures do the same at bit granularity. Chunk containers read a stream
of tagged frames, such as those of Electronic Arts' EA IFF 85, and dispatch
each one to the chunk class registered for its tag. The earlier `biwako`
package holds byte-sized and bit-sized predecessors of the numeric, string
and bit codecs.

The project models:

- The numeric codecs (`Numbers`, `BinNumbers`). These cover byte order,
  sign-magnitude, ones' and two's complement, the range-checked `Integer` and
  the literal `FixedInteger`.
- The string and bytes codecs (`Strings`, `BinStrings`). A text encoding is
  an abstract injective codec, with ASCII as one concrete instance.
- The field classes as values. `Kinds` gives each one a read, decode, encode
  and validate function over a byte source.
- The schema of a structure (`Schema`). It fixes the span each checksum
  covers and the after-encode subscribers of each field.
- The structure instance, in two forms:
  - `Engine` gives each operation as a function from a state to a result and
    the next state. The operations are prefix-first extraction, get with
    decode-once caching, set with its hooks, incremental write, save,
    validate and the conditions.
  - `Structures.Structure` is a class that carries out the same operations
    in place, with `while` loops. Each method is proved to end in the state
    the `Engine` function gives. `Write` is write as written;
    `WriteCorrected` is the corrected write described under Findings.
- The properties of the structure instance (`EngineFacts`, `ReadSave`,
  `WriteSplit`).
- Field arguments, with `Override` and `Removed` (`Args`). Field construction,
  labels and triggers (`FieldObjects`).
- The metaclasses (`Meta`): field-table inheritance and option propagation.
  What happens while a class body runs, and the per-field stack of bound
  instances (`Declarations`).
- The bit field codecs (`Bits`, `BiwakoBits`). The bit accumulator reader and
  the packer (`BitStructures`).
- Chunk lists, chunk streaming and the IFF frame layouts (`Chunks`). This
  includes the `ChunkStreamer` class.

Byte sources are a byte sequence with a cursor. They come in three kinds:
a lenient `io.BytesIO`-like reader, the strict `EOFBytesIO`, and the
unreadable source of a structure in write mode. The instance a field is
bound to is passed explicitly, instead of through a thread-local stack.
Python exceptions are the constructors of `Results.Error`.

A Python generator (`StructureStreamer.parse`, `ChunkStreamer.parse`) is
modelled as "the first n items it yields". A loop that the source would run
forever is modelled as a `Hangs` outcome. Examples are `biwako`'s
`String.read` on a source without a NUL, and a chunk list whose frame reads
no bytes.

## Model

| member | source | states |
|---|---|---|
| Args.MakeArgument | steel/common/args.py:8-23 | the constructor fails with TypeError on an option it does not know; otherwise it keeps resolve_field, and has_default holds exactly when a `default` keyword was given, even one that is None |
| Args.SetDefault | steel/common/args.py:29-32 | setting the default stores it and sets has_default, leaving the rest of the argument unchanged |
| Args.DeleteDefault | steel/common/args.py:34-37 | deleting the default resets it to None and clears has_default, leaving the rest unchanged |
| Args.ArgumentOptions | steel/common/args.py:13-23 | the constructor fails exactly when some keyword other than `default` is present |
| Args.SetAttr | steel/common/args.py:93-94 | setattr on an attribute the argument has adds no attribute and removes none |
| Args.OverridesFailExactly | steel/common/args.py:92-96 | applying the overrides fails, with TypeError, exactly when one of them names an attribute the argument lacks; on success the copy has the same attributes |
| Args.OverrideDefault | steel/common/args.py:80-98 | Override(default=v) installs a copy whose default is v and whose has_default holds; the other attributes are kept |
| Args.RemoveF | steel/common/args.py:106-111 | Removed deletes exactly the named entry and keeps every other one; it fails with TypeError exactly when the name is absent |
| Args.OverrideEffect | steel/common/args.py:86-98 | Override fails with TypeError exactly when the name is missing or an override names an attribute the argument lacks; otherwise the table keeps its keys and every other entry is unchanged |
| Args.ArgGet | steel/common/args.py:54-67 | KeyError once the argument has left the table, AttributeError when nothing is stored; with no bound instance the stored value comes back unchanged; with one, a resolve_field argument holding a field yields that field's value on the instance and a callable is called with the instance |
| BinNumbers.SignMagnitudeEncode | biwako/bin/fields/numbers.py:34-40 | the byte-sized sign-magnitude encode fails exactly above 2^(8·size) - 1 |
| BinNumbers.OnesComplementEncode | biwako/bin/fields/numbers.py:53-59 | the byte-sized ones'-complement encode fails exactly above 2^(8·size) - 1 |
| BinNumbers.TwosComplementEncode | biwako/bin/fields/numbers.py:72-78 | the byte-sized two's-complement encode fails, with ValueError, exactly above 2^(8·size - 1) - 1 |
| BinNumbers.SignersAgree | biwako/bin/fields/numbers.py:30-84 | every byte-sized signer, encode and decode, is the steel signer over size·8 bits |
| BinNumbers.IntegerEncode | biwako/bin/fields/numbers.py:101-108 | a success is `size` bytes long; an unsigned field fails exactly on a negative value or one above 2^(8·size) - 1 |
| BinNumbers.IntegersAgree | biwako/bin/fields/numbers.py:89-114 | the byte-sized Integer encodes and decodes as the steel Integer of the same size |
| BinNumbers.IntegerRoundTrip | biwako/bin/fields/numbers.py:101-114 | every value in the field's range encodes, and decoding the encoding gives it back |
| BinNumbers.MakeFixedInteger | biwako/bin/fields/numbers.py:167-173 | the fixed field is signed exactly for a negative value, keeps the value, and its cached encoding is `size` bytes long |
| BinNumbers.EndiannessVectors | biwako/bin/fields/numbers.py:6-25 | 42 in 2 bytes is 00 2a big-endian and 2a 00 little-endian, and both decode back to 42 |
| BinNumbers.SigningVectors | biwako/bin/fields/numbers.py:30-84 | in one byte, -42 encodes to 0xaa, 0xd5 and 0xd6 under the three signings and decodes back, and 42 is unchanged by all three |
| BinNumbers.IntegerVectors | biwako/bin/fields/numbers.py:101-108 | signed 1-byte: 127 gives 7f, -127 gives 81, 128 is a ValueError; unsigned: 128 gives 80, -127 and 256 are ValueErrors |
| BinNumbers.FixedIntegerVectors | biwako/bin/fields/numbers.py:167-183 | FixedInteger(42, size=1) encodes only 42, as 2a, and decodes only 2a; 43 and 2b are ValueErrors |
| BinStrings.MakeString | biwako/bin/fields/strings.py:5-8 | constructing a String fails with TypeError exactly when no encoding is given; otherwise the field keeps that codec |
| BinStrings.ReadString | biwako/bin/fields/strings.py:10-18 | the one-byte-at-a-time read loop computes the NUL scan ScanNul of the source |
| BinStrings.ScanNulSpec | biwako/bin/fields/strings.py:10-18 | on a readable source the read returns the bytes before the first NUL and consumes that NUL; with no NUL left a lenient source never stops and a strict one fails with EOFError; an unreadable one fails with IOError |
| BinStrings.StringEncode | biwako/bin/fields/strings.py:20-21 | String.encode is the codec's encode, with no terminator added |
| BinStrings.StringDecode | biwako/bin/fields/strings.py:23-24 | String.decode is the codec's decode |
| BinStrings.StringStreamRoundTrip | biwako/bin/fields/strings.py:10-24 | text whose encoding holds no NUL, written to a stream and followed by a NUL, reads and decodes back to the same text and leaves exactly what followed the NUL |
| BinStrings.StringVectors | biwako/bin/fields/strings.py:20-24 | 'test' and b'test' correspond in ascii, and ascii refuses to encode 'über' with ValueError |
| BinStrings.MakeFixedString | biwako/bin/fields/strings.py:28-38 | with no encoding the String constructor raises TypeError; raw bytes are their own encoding and decoding; text is encoded by the codec, and a codec failure is the constructor's failure |
| BinStrings.FixedStringVectors | biwako/bin/fields/strings.py:40-48 | FixedString(b'valid') and FixedString('valid') in ascii accept only their value and encoding; b'invalid' is a ValueError |
| BinStrings.MakeBytes | biwako/bin/fields/strings.py:51-55 | a Bytes field fails with TypeError exactly when its size is missing or 0 |
| BinStrings.ReadSized | biwako/bin/fields/base.py:21-35 | the base read takes the whole rest for Remainder, exactly `size` bytes for a size, and raises NotImplementedError with no size |
| Bits.BitEncode | steel/bits/fields.py:40-45 | failures are ValueErrors and a success lies in [0, 2^size); an unsigned field fails exactly above 2^size - 1, returns the value masked to `size` bits, and returns an in-range value unchanged; a 0-bit signed field encodes only what its signing accepts over 0 bits |
| Bits.MaskSmall | steel/bits/fields.py:45 | masking to n bits leaves a value already in [0, 2^n) unchanged |
| Bits.SignBits | steel/fields/numbers.py:40-84 | a signing's encode over n bits is the signing's own for n >= 1; over 0 bits it gives 0 for 0 (sign-magnitude) or for any value up to 0 (ones' complement), and ValueError otherwise, always for two's complement |
| Bits.UnsignBits | steel/fields/numbers.py:49-91 | a signing's decode over n bits is the signing's own for n >= 1; over 0 bits two's complement gives -1 and the other two raise ValueError |
| Bits.BitDecode | steel/bits/fields.py:47-50 | decode fails, with ValueError, above 2^size - 1, and for a field of at least one bit only there; a 0-bit field decodes a value up to 0 to -1 under two's complement and raises ValueError under the other signings |
| Bits.UnsignedBitRoundTrip | steel/bits/fields.py:40-50 | an unsigned field gives back every value below 2^(size-1) on encode and on decode, whatever its signing |
| Bits.UnsignedTopBitNegative | steel/bits/fields.py:50 | because decode always applies the signing, an unsigned two's-complement field reads a value with the top bit set as that value minus 2^size |
| Bits.SignedBitRoundTrip | steel/bits/fields.py:36-50 | a signed field encodes every value in its signing's range, and decoding gives that value back |
| Bits.MakeFixedBits | steel/bits/fields.py:53-57 | construction succeeds exactly when the value encodes under a field that is signed for negative values; the fixed pair is the value and its encoding |
| Bits.FixedBitsEncode | steel/bits/fields.py:59-62 | encode succeeds exactly on the fixed value, returns the fixed encoding, and fails with ValueError otherwise |
| Bits.FixedBitsDecode | steel/bits/fields.py:64-67 | decode succeeds exactly on the fixed encoding, returns the fixed value, and fails with ValueError otherwise |
| Bits.FixedBitsRoundTrip | steel/bits/fields.py:53-67 | a fixed field reads back the value it writes |
| Bits.FlagEncode | steel/bits/fields.py:73-74 | an unsigned flag encodes a truthy value as 1 and a falsy one as 0, except that a 0-bit flag raises ValueError for a truthy value; a signed flag puts 1 or 0 through the signed encode |
| Bits.FlagDecode | steel/bits/fields.py:76-77 | a flag fails exactly when the integer decode fails, which for a flag of at least one bit is exactly above 2^size - 1, and otherwise gives the truth of the integer decode |
| Bits.ZeroBitField | steel/bits/fields.py:40-77 | a 0-bit unsigned field writes every value up to 0 as 0 and refuses larger ones, reads 0 as -1 under two's complement, and a 0-bit flag cannot write True and reads 0 as True |
| Bits.FlagRoundTrip | steel/bits/fields.py:70-77 | booleans round-trip through a flag with two's-complement signing or of at least two bits |
| Bits.OnesComplementFlagLosesTrue | steel/bits/fields.py:50-77 | a one-bit ones'-complement flag reads a set bit back as False |
| Bits.BitReservedEncode | steel/bits/fields.py:81-82 | a reserved bit field encodes every value as 0 |
| BitStructures.PullSize | steel/bits/base.py:16-18 | the number of bytes pulled is the least n with 8·n covering the bits missing, and none when the request fits the buffered bits |
| BitStructures.BitReadF | steel/bits/base.py:14-27 | a failed read leaves the accumulator and the file as they were; a request that fits the buffered bits reads nothing from the file and succeeds |
| BitStructures.PullsMinimal | steel/bits/base.py:16-23 | on a lenient source a read succeeds; it takes no bytes when the request fits, and otherwise takes exactly ceil((size - bits_left)/8) bytes, or what is left, from the front of the file |
| BitStructures.ReadLossless | steel/bits/base.py:22-27 | after a read 0 <= bits_left < 8 and buffer < 2^bits_left still hold, and old buffer · 2^(8·pulled) + pulled value == result · 2^bits_left' + new buffer, with the result below 2^size: the result is the next `size` bits, most significant first |
| BitStructures.BitStructure.constructor | steel/bits/base.py:9-12 | a new bit structure holds no buffered bits |
| BitStructures.BitStructure.Read | steel/bits/base.py:14-27 | the method's result and new accumulator and file are those of BitReadF, and the accumulator stays valid |
| BitStructures.DrainLength | steel/bits/base.py:39-42 | the inner loop appends one byte per 8 pending bits, keeps the bytes already emitted, and leaves bits_read % 8 pending |
| BitStructures.PackFromLength | steel/bits/base.py:33-42 | the outer loop from field k on appends (pending bits + the bits of the remaining fields) / 8 bytes |
| BitStructures.PackLength | steel/bits/base.py:29-43 | get_raw_bytes emits floor(total declared bits / 8) bytes; leftover bits are dropped |
| BitStructures.PackDropsBits | steel/bits/base.py:40-41 | since the accumulator is shifted before its low byte is appended, an 8-bit field holding 0xAB, or two 4-bit fields holding 0xA and 0xB, save as one zero byte |
| BitStructures.GetRawBytes | steel/bits/base.py:29-43 | the two nested loops compute Pack, and the output is floor(total bits / 8) bytes long |
| BiwakoBits.PlainEncode | biwako/bit/fields.py:37-40 | encode fails, with ValueError, exactly above 2^size - 1, and otherwise returns the value masked to `size` bits |
| BiwakoBits.PlainDecode | biwako/bit/fields.py:42-45 | decode fails, with ValueError, exactly above 2^size - 1, and otherwise returns the masked value, with no signing |
| BiwakoBits.PlainRoundTrip | biwako/bit/fields.py:37-45 | every value in [0, 2^size) encodes to itself and decodes back |
| BiwakoBits.PlainNegativeWraps | biwako/bit/fields.py:37-40 | a negative value is not rejected: -1 encodes as 2^size - 1 |
| BiwakoBits.MakeFixedPlain | biwako/bit/fields.py:48-52 | construction succeeds exactly when the value is at most 2^size - 1, and caches the value with its masked encoding |
| BiwakoBits.FixedPlainEncode | biwako/bit/fields.py:54-57 | encode succeeds exactly on the fixed value, returns the fixed encoding, and fails with ValueError otherwise |
| BiwakoBits.FixedPlainDecode | biwako/bit/fields.py:59-62 | decode succeeds exactly on the fixed encoding, returns the fixed value, and fails with ValueError otherwise |
| BiwakoBits.FixedPlainExamples | biwako/bit/fields.py:48-62 | FixedInteger(42, size=8) accepts only 42 both ways; FixedInteger(-1, size=4) caches the encoding 15 |
| BiwakoBits.PlainFlagEncode | biwako/bit/fields.py:68-69 | a flag encodes True as 1 and False as 0, except that a 0-bit flag raises ValueError for True |
| BiwakoBits.PlainFlagDecode | biwako/bit/fields.py:71-72 | a flag fails exactly above 2^size - 1 and otherwise is true exactly when the masked value is not 0 |
| BiwakoBits.PlainFlagRoundTrip | biwako/bit/fields.py:65-72 | booleans round-trip through a flag of any size |
| BiwakoBits.PlainReservedEncode | biwako/bit/fields.py:76-77 | a reserved bit field encodes every value as 0 |
| FieldObjects.FieldInitF | steel/common/fields.py:77-86 | the constructor fails with TypeError exactly when some argument has neither a keyword nor a default, or some keyword names no argument; otherwise every argument holds its keyword, or else its default |
| FieldObjects.FieldInit | steel/common/fields.py:77-86 | the constructor's loops compute FieldInitF |
| FieldObjects.StoreArguments | steel/common/fields.py:77-84 | the first loop either hits an argument with no keyword and no default, which makes the constructor fail, or stores every argument's keyword or default and leaves exactly the unused keywords pending |
| FieldObjects.FieldInitMissing | steel/common/fields.py:80-83 | a required argument without a keyword makes the constructor raise TypeError |
| FieldObjects.FieldInitUnexpected | steel/common/fields.py:85-86 | a keyword that no argument takes makes the constructor raise TypeError |
| FieldObjects.FieldInitFilled | steel/common/fields.py:77-86 | when every argument is filled and no keyword is left over, the constructor succeeds with exactly those values |
| FieldObjects.DefaultsFill | steel/common/fields.py:77-86 | when every argument has a default, any keywords the class takes succeed, and no keywords at all give every argument its default |
| FieldObjects.Upper | steel/common/fields.py:119 | upper-casing keeps a character cased or uncased, leaves an uncased one alone, and makes a cased one upper-case |
| FieldObjects.Lower | steel/common/fields.py:119 | lower-casing keeps a character cased or uncased, leaves an uncased one alone, and makes a cased one lower-case |
| FieldObjects.TitleFrom | steel/common/fields.py:119 | title-casing keeps the length and which characters are cased |
| FieldObjects.Spaced | steel/common/fields.py:118 | the name with every underscore turned into a space and nothing else changed |
| FieldObjects.TitleIdempotent | steel/common/fields.py:116-119 | title-casing is idempotent, so naming a field twice keeps its label |
| FieldObjects.TitleShape | steel/common/fields.py:119 | in a title-cased string a cased character is upper-case exactly when the character before it is not cased |
| FieldObjects.LabelExample | steel/common/fields.py:116-119 | a field named `number` without a label gets the label 'Number' |
| FieldObjects.BoundTrigger.constructor | steel/common/fields.py:29-31 | a bound trigger holds every function registered so far, bound to its field |
| FieldObjects.BoundTrigger.Register | steel/common/fields.py:36-38 | a function registered on a bound trigger is added to it as it is, unbound |
| FieldObjects.Trigger.constructor | steel/common/fields.py:12-14 | a new trigger has no functions and no cached bound triggers |
| FieldObjects.Trigger.Register | steel/common/fields.py:16-18 | registering adds the function and leaves the cache alone |
| FieldObjects.Trigger.Get | steel/common/fields.py:20-25 | the first access for an instance makes and caches a bound trigger of the functions registered by then; later accesses return the cached object |
| FieldObjects.ClassDecoration | steel/common/fields.py:20-68 | a hook decorated through the class goes to the trigger bound to None only; a field's trigger made afterwards never holds it |
| Meta.InheritedLeftmostWins | steel/common/meta.py:36-40 | the corrected merge of the bases' field tables keeps names distinct and takes every inherited name from the left-most base that has it |
| Meta.InheritedAsWrittenRightmost | steel/common/meta.py:36-40 | the merge as written, updating left to right, takes every inherited name from the right-most base that has it |
| Meta.BaseOrderCounterexample | steel/common/meta.py:37-40 | two bases both declaring `x`: as written the table takes the second base's field, while the left-most priority the comment promises takes the first |
| Meta.OwnStepEffect | steel/common/meta.py:42-46 | one namespace entry: a field is stored under its name, in place when the name was inherited; None removes the name; anything else changes nothing; no other name changes |
| Meta.OwnValues | steel/common/meta.py:42-46 | after the namespace loop every name maps to its last field in the namespace, is absent if its last entry is None, and otherwise keeps its inherited field |
| Meta.OwnAppends | steel/common/meta.py:36-46 | when the namespace removes nothing and redefines nothing inherited, the table is the inherited fields followed by the class's own fields in declaration order |
| Meta.StructureClass.constructor | steel/common/meta.py:35-46 | the class's field table is the bases' tables merged left to right as written, then updated by the namespace in order |
| Meta.InheritedAsWrittenDisjoint | steel/common/meta.py:38-40 | as written, bases that share no field name are inherited in base order, the left base's fields first |
| Meta.DisjointBasesReordered | steel/common/meta.py:37-40 | a base with `a` followed by one with `b` gives the table [a, b] as written and [b, a] under the corrected merge |
| Meta.ArgumentsLeftmostWins | steel/common/meta.py:58-62 | a field class has an argument exactly when some base declares it, and takes it from the left-most such base |
| Meta.DeclareStepEffect | steel/common/meta.py:64-68 | one namespace entry fails, with TypeError, exactly at an Override or Removed of an absent name or an Override of an attribute the argument lacks; otherwise no other name changes, and the name is present exactly after an Argument, or after an Override or other object on a name already present |
| Meta.ReservedArguments | steel/common/fields.py:47-50 | Field declares size (required, resolve_field), offset, choices and default, and the Override in Reserved keeps the same arguments and gives `default` the default None |
| Meta.FieldClass.constructor | steel/common/meta.py:58-62 | the argument table starts as the bases merged, left-most winning |
| Meta.FieldClass.Declare | steel/common/meta.py:64-68 | the namespace loop fails exactly when DeclareArguments fails, with its error, and otherwise leaves the table DeclareArguments builds |
| Meta.FieldClass.Override | steel/common/args.py:86-98 | Override.attach_to_class fails exactly when OverrideF does, and otherwise installs the modified copy of the argument |
| Meta.OverridePrefixFails | steel/common/args.py:92-96 | once an override fails, the rest are not applied and the whole fails with the same error |
| Meta.MergeOptionsF | steel/common/meta.py:70-79 | a field receives a structure option exactly when its class declares an argument of that name, and an explicit keyword argument overrides the option |
| Meta.MergeOptions | steel/common/meta.py:70-79 | the option loop computes MergeOptionsF |
| Declarations.Decimal | steel/fields/base.py:47 | the numeral '%s' % n has at least one digit, and at least two from 10 on |
| Declarations.DecimalInjective | steel/fields/base.py:47 | different numbers have different numerals, so `_reserved_i` names differ for different i |
| Declarations.AvailableName | steel/fields/base.py:44-50 | the counter loop stops at the first i whose name is not taken: every earlier name is taken and the one returned is free |
| Declarations.FreeNameUnique | steel/fields/base.py:44-50 | the free name depends only on the names taken |
| Declarations.Declaration.Prepare | steel/common/meta.py:24-28 | a class declaration begins with the class options recorded, one empty field list on the stack and an empty namespace |
| Declarations.Declaration.SetItem | steel/common/meta.py:13-20 | a binding reaches the namespace only at the top level; a nameable object is named and appended to the innermost field list, a Reserved field or condition named a second time raises TypeError, and nothing else changes |
| Declarations.Declaration.DeclareReserved | steel/fields/base.py:38-50 | a Reserved field binds itself under a `_reserved_i` the namespace did not hold, appended at the end of the namespace at the top level |
| Declarations.Declaration.EnterCondition | steel/common/fields.py:211-223 | a condition binds itself under a free `_condition_i` in the enclosing field list, then opens a new empty field list |
| Declarations.Declaration.ExitCondition | steel/common/fields.py:225-229 | leaving the block pops the innermost field list, which becomes the condition's fields; nothing else changes |
| Declarations.Declaration.Finish | steel/common/meta.py:48-49 | when the class is built the options are cleared and the field stack is reset to one empty list |
| Declarations.Innermost | steel/common/meta.py:20 | appending to the innermost field list changes only the last list, by adding the object at its end |
| Declarations.Keys | steel/common/meta.py:42 | the names of an ordered namespace are exactly the names of its entries |
| Declarations.BindingPlaces | steel/common/meta.py:13-20 | at the top level a field is bound in the namespace; inside a `with` block the outer list is untouched and the field goes to the innermost one |
| Declarations.EnterF | steel/common/meta.py:87-89 | entering pushes the instance on the field's stack, and does nothing for None |
| Declarations.ExitF | steel/common/meta.py:91-93 | leaving pops the field's stack, does nothing for None, and is an IndexError on an empty stack |
| Declarations.EnterExitBalanced | steel/common/meta.py:82-93 | entering and then leaving a binding succeeds and gives back every stack as it was, and while it is open the field's innermost instance is the one bound |
| Declarations.EnterExitOthers | steel/common/meta.py:82-93 | a binding of one field leaves every other field's stack alone |
| Declarations.InstanceStacks.constructor | steel/common/__init__.py:8 | the instance stacks start empty |
| Declarations.InstanceStacks.Enter | steel/common/meta.py:87-89 | the method changes the stacks as EnterF does |
| Declarations.InstanceStacks.Exit | steel/common/meta.py:91-93 | the method fails exactly as ExitF does, then with the stacks unchanged, and otherwise changes them as ExitF does |
| Numbers.BigEndianEncode | steel/fields/numbers.py:17-18 | big-endian encode yields exactly `size` bytes |
| Numbers.LittleEndianEncode | steel/fields/numbers.py:28-29 | little-endian encode yields exactly `size` bytes |
| Numbers.BigEndianDecode | steel/fields/numbers.py:20-21 | big-endian decode lies in [0, 256^size) |
| Numbers.LittleEndianDecode | steel/fields/numbers.py:31-32 | little-endian decode lies in [0, 256^size) |
| Numbers.EndianEncode | steel/fields/numbers.py:13-32 | either byte order encodes to exactly `size` bytes |
| Numbers.EndianDecode | steel/fields/numbers.py:13-32 | either byte order decodes into [0, 256^size) |
| Numbers.BigEndianEncodeFront | steel/fields/numbers.py:17-18 | the first big-endian byte is the top base-256 digit, followed by the encoding of the rest: most significant first |
| Numbers.LittleEndianEncodeFront | steel/fields/numbers.py:28-29 | the first little-endian byte is value % 256, followed by the encoding of value / 256: least significant first |
| Numbers.BigEndianRoundTrip | steel/fields/numbers.py:17-21 | big-endian decode of the encoding is the value modulo 256^size, so the value itself for 0 <= v < 256^size |
| Numbers.LittleEndianRoundTrip | steel/fields/numbers.py:28-32 | little-endian decode of the encoding is the value modulo 256^size, so the value itself for 0 <= v < 256^size |
| Numbers.EndianRoundTrip | steel/fields/numbers.py:13-32 | for either byte order and 0 <= v < 256^size, the encoding has `size` bytes and decodes back to v |
| Numbers.BigEndianPrefixOnly | steel/fields/numbers.py:21 | big-endian decode reads only the first `size` bytes of its input |
| Numbers.LittleEndianPrefixOnly | steel/fields/numbers.py:32 | little-endian decode reads only the first `size` bytes of its input |
| Numbers.BigEndianInjective | steel/fields/numbers.py:20-21 | two `size`-byte strings with the same big-endian value are equal |
| Numbers.LittleEndianInjective | steel/fields/numbers.py:31-32 | two `size`-byte strings with the same little-endian value are equal |
| Numbers.EndianDecodeRoundTrip | steel/fields/numbers.py:13-32 | encoding the decode of a `size`-byte string gives it back, in either byte order |
| Numbers.SignMagnitudeEncode | steel/fields/numbers.py:41-47 | sign-magnitude encode fails, with ValueError, exactly above 2^n - 1, and leaves every value in [0, 2^n) unchanged |
| Numbers.SignMagnitudeNegative | steel/fields/numbers.py:44-52 | a negative value above -2^(n-1) encodes as its magnitude with bit n-1 set, and decodes back |
| Numbers.SignMagnitudeDecodeRange | steel/fields/numbers.py:49-53 | decode leaves values below 2^(n-1) unchanged, and otherwise clears bit n-1 and negates |
| Numbers.OnesComplementEncode | steel/fields/numbers.py:60-66 | ones'-complement encode fails, with ValueError, exactly above 2^n - 1, leaves every value in [0, 2^n) unchanged, and never yields a negative |
| Numbers.OnesComplementNegative | steel/fields/numbers.py:63-65 | a negative value above -2^n encodes as (2^n - 1) + v |
| Numbers.OnesComplementDecodeRange | steel/fields/numbers.py:68-72 | decode leaves values below 2^(n-1) unchanged and maps the others to v - (2^n - 1) |
| Numbers.TwosComplementEncode | steel/fields/numbers.py:79-85 | two's-complement encode fails, with ValueError, exactly above 2^(n-1) - 1, leaves non-negative values in range unchanged, and never yields a negative |
| Numbers.TwosComplementNegative | steel/fields/numbers.py:82-84 | a negative value above -2^n encodes as 2^n + v |
| Numbers.TwosComplementDecodeRange | steel/fields/numbers.py:87-91 | decode leaves values below 2^(n-1) unchanged and maps the others to v - 2^n |
| Numbers.SigningEncode | steel/fields/numbers.py:37-91 | every signing fails only with ValueError and never yields a negative |
| Numbers.SignMagnitudeRoundTrip | steel/fields/numbers.py:41-53 | on (-2^(n-1), 2^(n-1)) sign-magnitude encodes into [0, 2^n) and decodes back |
| Numbers.OnesComplementRoundTrip | steel/fields/numbers.py:60-72 | on [-(2^(n-1)-1), 2^(n-1)-1] ones' complement encodes into [0, 2^n) and decodes back |
| Numbers.TwosComplementRoundTrip | steel/fields/numbers.py:79-91 | on [-2^(n-1), 2^(n-1)-1] two's complement encodes into [0, 2^n) and decodes back |
| Numbers.SigningRoundTrip | steel/fields/numbers.py:37-91 | each signing encodes every value of its range into [0, 2^n) and decodes it back |
| Numbers.TwosComplementWraps | steel/fields/numbers.py:79-85 | encode has no lower bound: -2^(n-1) - 1 wraps to 2^(n-1) - 1, which decodes as positive |
| Numbers.IntegerEncode | steel/fields/numbers.py:111-118 | a success is `size` bytes long and failures are ValueErrors; an unsigned field fails exactly on a negative value or one above 2^(8·size) - 1, and otherwise returns the byte-order encoding |
| Numbers.IntegerDecode | steel/fields/numbers.py:120-124 | an unsigned field decodes into [0, 2^(8·size)) |
| Numbers.UnsignedIntegerRoundTrip | steel/fields/numbers.py:111-124 | an unsigned field encodes every value in [0, 2^(8·size)) and decodes it back |
| Numbers.UnsignedDecodeInjective | steel/fields/numbers.py:120-124 | an unsigned field decodes different `size`-byte strings to different values |
| Numbers.SignedIntegerRoundTrip | steel/fields/numbers.py:103-124 | a signed field, its signing built over size·8 bits, encodes every value of the signing's range and decodes it back |
| Numbers.SignedTwosComplementRejects | steel/fields/numbers.py:111-117 | a signed two's-complement field fails exactly above 2^(8·size-1) - 1 or on a negative multiple of 2^(8·size), whose encoding overflows |
| Numbers.BitLength | steel/fields/numbers.py:204 | int.bit_length is 0 exactly for 0 |
| Numbers.BitLengthBound | steel/fields/numbers.py:204 | a non-negative value is below 2^bit_length |
| Numbers.ImplicitSize | steel/fields/numbers.py:203-204 | the implicit size is the least number of bytes holding bit_length bits, and at least 1 |
| Numbers.MakeFixedInteger | steel/fields/numbers.py:202-207 | the fixed field is signed exactly for a negative value, its size is the given one or else the implicit one, and its cached encoding has that many bytes |
| Numbers.FixedIntegerImplicitFits | steel/fields/numbers.py:202-207 | a non-negative value always fits its implicit size, and its cached encoding is the byte-order encoding |
| Numbers.FixedIntegerEncode | steel/fields/numbers.py:210-213 | encode succeeds exactly on the fixed value, returns the cached encoding, and fails with ValueError otherwise |
| Numbers.FixedIntegerDecode | steel/fields/numbers.py:215-218 | decode succeeds exactly on the cached encoding, returns the fixed value, and fails with ValueError otherwise |
| Numbers.EndiannessVectors | steel/fields/numbers.py:13-32 | 42 in 2 bytes is 00 2a big-endian and 2a 00 little-endian, and both decode back |
| Numbers.SigningVectors | steel/fields/numbers.py:37-91 | over 8 bits, -42 encodes to 0xaa, 0xd5 and 0xd6 under the three signings and decodes back, and 42 is unchanged by all three |
| Numbers.IntegerVectors | steel/fields/numbers.py:111-118 | signed 1-byte: 127 gives 7f, -127 gives 81, 128 is a ValueError; unsigned: 128 gives 80, -127 and 256 are ValueErrors |
| Numbers.FixedIntegerVectors | steel/fields/numbers.py:201-218 | FixedInteger(42, size=1) accepts only 42 and 2a; 43 and 2b are ValueErrors |
| ODicts.Set | steel/common/meta.py:16 | assigning a key already present replaces its value in place; a new key goes to the end |
| ODicts.Delete | steel/common/meta.py:43-44 | deleting a key removes exactly its entry and keeps the order of the others |
| ODicts.SetEffect | steel/common/meta.py:16 | after an assignment the key maps to the new value, every other key keeps its value, and an existing key keeps its position |
| ODicts.DeleteEffect | steel/common/meta.py:43-44 | after a deletion the key is absent and every other key keeps its value |
| ODicts.UpdateEffect | steel/common/meta.py:38-40 | update takes every key of the other dictionary from it and keeps the rest |
| ODicts.UpdateFresh | steel/common/meta.py:38-40 | an update whose keys are all new appends them, in order, after the existing entries |
| Streams.Read | steel/base.py:118-127 | a read returns a prefix of the remaining bytes and consumes exactly it; an unreadable source raises IOError; an EOFBytesIO read fails exactly when fewer bytes remain than requested; a BytesIO read returns min(n, remaining) bytes, or all of them for a negative n |
| Streams.ReadTakes | steel/base.py:29-30 | a successful read returns the first `take` remaining bytes and leaves the others |
| Strings.AsciiEncode | steel/fields/strings.py:35 | the ascii codec encodes exactly the text whose characters are all below 128, one byte per character |
| Strings.AsciiDecode | steel/fields/strings.py:32 | the ascii codec decodes exactly the bytes that are all below 128 |
| Strings.AsciiIsValid | steel/fields/strings.py:32-35 | ascii is a valid codec: decoding an encoding gives the text back, and its failures are ValueErrors |
| Strings.RStrip | steel/fields/strings.py:32 | bytes.rstrip keeps a prefix of the input that does not end in a stripped byte, and everything it drops is a stripped byte |
| Strings.RStripUnique | steel/fields/strings.py:32 | rstrip gives the only prefix with that property |
| Strings.LJust | steel/fields/strings.py:37 | bytes.ljust needs a one-byte fill (TypeError otherwise), keeps the input as a prefix, pads with the fill up to the width and never truncates |
| Strings.ReadTerminated | steel/fields/strings.py:19-27 | the unsized read loop reads from the same source, in the same mode |
| Strings.ReadTerminatedConsumes | steel/fields/strings.py:19-29 | what the unsized read returns is exactly the bytes it consumed |
| Strings.ReadTerminatedLoop | steel/fields/strings.py:19-29 | the one-byte-at-a-time loop computes ReadTerminated |
| Strings.FirstIndex | biwako/bin/fields/strings.py:16 | the index of the first occurrence of a byte lies within the bytes |
| Strings.FirstIndexFirst | biwako/bin/fields/strings.py:16 | no earlier byte is the one sought, and the byte at the index is it when the index is in range |
| Strings.ReadTerminatedSpan | steel/fields/strings.py:19-29 | on a BytesIO source the unsized read consumes bytes up to and including the first terminator byte, or everything when there is none |
| Strings.ReadTerminatedStop | steel/fields/strings.py:21-27 | the read stops at once on a terminator byte or at the end of the source |
| Strings.ReadTerminatedMiss | steel/fields/strings.py:21-23 | a byte that is not the terminator is appended and the loop goes on with the rest |
| Strings.StringRead | steel/fields/strings.py:13-15 | a sized String reads exactly what read(size) returns; a size that is not a number is a TypeError |
| Strings.StringEncode | steel/fields/strings.py:34-40 | text is encoded by the codec, whose failure propagates; an unsized String appends the terminator, a sized one right-pads with `padding` up to `size` and never truncates |
| Strings.StripTail | steel/fields/strings.py:32 | stripping a tail of stripped bytes gives back what came before it, when that ends in a kept byte |
| Strings.StringRoundTrip | steel/fields/strings.py:31-40 | text whose encoding does not end in a terminator or padding byte survives encode then decode, sized or unsized |
| Strings.StringValidate | steel/fields/strings.py:42-46 | validate fails when the text does not encode, and for a sized String exactly when the encoding is longer than `size`; an unsized one always passes |
| Strings.StringVectors | steel/fields/strings.py:31-40 | 'test' encodes as b'test\x00' by default, and that decodes back to 'test' |
| Strings.StringRejectsNonAscii | steel/fields/strings.py:35 | an ascii String refuses to encode 'über' with ValueError |
| Strings.LengthIndexedRead | steel/fields/strings.py:50-53 | with no size the length prefix cannot be built: TypeError |
| Strings.LengthIndexedDecode | steel/fields/strings.py:55-57 | with no size the whole value is decoded; otherwise the first `size` bytes are dropped, all of them when the value is shorter, and the rest is decoded |
| Strings.LengthIndexedEncode | steel/fields/strings.py:59-62 | the encoding is a `size`-byte big-endian length prefix followed by the encoded text; it fails exactly when the length does not fit the prefix |
| Strings.LengthIndexedRoundTrip | steel/fields/strings.py:50-62 | the encoding, read back from a stream, is read exactly to its end, and decodes back to the text |
| Strings.LengthIndexedVectors | steel/fields/strings.py:50-62 | 'valid' with a 1-byte prefix is b'\x05valid', and that decodes back |
| Strings.MakeFixedString | steel/fields/strings.py:71-82 | raw bytes are their own encoding and decoding; text is encoded by String.encode with the field's arguments, and a failure of that encode is the constructor's failure |
| Strings.FixedStringRead | steel/fields/strings.py:85-93 | the read takes `size` bytes; when they differ from the fixed encoding it raises ValueError, having consumed them, and otherwise yields the fixed encoding already decoded |
| Strings.FixedStringReadMatches | steel/fields/strings.py:85-93 | a source that starts with the fixed encoding yields it and is left just after it |
| Strings.FixedStringEncode | steel/fields/strings.py:100-103 | encode succeeds exactly on the fixed value, returns the fixed encoding, and fails with ValueError otherwise |
| Strings.FixedStringDecode | steel/fields/strings.py:95-98 | decode succeeds exactly on the fixed encoding, returns the fixed value, and fails with ValueError otherwise |
| Strings.FixedStringVectors | steel/fields/strings.py:65-103 | FixedString('valid') in ascii encodes to b'valid' of size 5, accepts 'valid', refuses 'invalid' with ValueError and decodes b'valid' |
| Strings.BytesEncode | steel/fields/strings.py:107-109 | Bytes.encode is the identity |
| Strings.BytesDecode | steel/fields/strings.py:111-113 | Bytes.decode is the identity |
| Kinds.ByteSum | steel/byte/fields/integrity.py:68-69 | the byte-sum checksum is never negative and grows by exactly the value of each byte appended |
| Kinds.FieldRead | steel/fields/base.py:16-24 | a field with a numeric size reads exactly that many bytes or fails leaving the source where it was; a field without a size raises NotImplementedError; a size that is not a number fails (TypeError, or IOError on an unreadable source) |
| Kinds.DecodeK | steel/fields/base.py:57-61 | decoding is the field kind's own decode: an Integer gives its integer, a FixedInteger accepts exactly its literal encoding, Bytes passes the bytes through, Reserved gives None, a List has no decode |
| Kinds.ReadValue | steel/common/fields.py:142-148 | read_value outside a structure: a CheckSum field reads its bytes and then fails, since it was never attached to a class |
| Kinds.ListRead | steel/fields/compound.py:13-21 | a List whose count is not a number fails with TypeError before reading anything |
| Kinds.ReadList | steel/fields/compound.py:13-21 | the source's loop over range(size) gives exactly the list read ListRead defines |
| Kinds.ListReadStep | steel/fields/compound.py:17-21 | a list of n > 0 elements reads its first element from the source and the other n - 1 from where it stopped, the first element's bytes and value in front; a failing element ends the read with its error |
| Kinds.ListReadLength | steel/fields/compound.py:17-21 | a list read that succeeds holds exactly count values, none for a count below one |
| Kinds.ReadValueConsumes | steel/common/fields.py:142-148 | the bytes a successful read_value returns are exactly the bytes it took from the source: they and what is left make up what was there |
| Kinds.KReadConsumes | steel/fields/strings.py:13-29 | every kind's read returns exactly the bytes it consumed (strings, length-indexed strings and lists included) |
| Kinds.LengthIndexedReadConsumes | steel/fields/strings.py:50-53 | a length-indexed read consumes its prefix and the number of bytes the prefix announces, and returns both |
| Kinds.ListStepsConsumes | steel/fields/compound.py:17-20 | the bytes a list collects are the concatenation of what its elements consumed, in order |
| Kinds.Iterate | steel/fields/compound.py:26 | iterating a list gives its items, text gives one value per character, bytes one per byte; anything else raises TypeError |
| Kinds.Zeros | steel/fields/base.py:57-58 | b'\x00' * n is n zero bytes, none when n is not positive |
| Kinds.EncodeList | steel/fields/compound.py:23-28 | the source's loop that collects each element's encoding and joins them gives exactly ListEncode |
| Kinds.ListEncodeAppend | steel/fields/compound.py:23-28 | the encoding of a + b is the encoding of a followed by that of b, and fails with a's error when a fails |
| Kinds.ListEncodeStops | steel/fields/compound.py:26-27 | the first element that cannot be encoded makes the whole list fail with that element's error; no partial encoding is returned |
| Kinds.ChoicesCheck | steel/common/fields.py:132-133 | no choices accepts anything; with choices, an accepted value equals one of them, and when nothing involved is a list the check accepts exactly the values equal to a choice; a rejection is ValueError, or TypeError for an unhashable list |
| Kinds.EncodeCheck | steel/common/fields.py:128-129 | the encode step of validation fails exactly when the field's encode fails, and never for Bytes |
| Kinds.ValidateK | steel/common/fields.py:124-133 | non-string fields validate by encoding and then checking choices; a fixed-size String rejects exactly the text whose encoding is longer than its size (steel/fields/strings.py:42-46); a String given a non-text value raises AttributeError |
| Kinds.ListEncodeVector | steel/fields/compound.py:23-28 | List(Integer(size=1), size=4) encodes [66, 82, 42, 58] as the bytes 42 52 2a 3a |
| Kinds.ListReadVector | steel/fields/compound.py:13-21 | the same list reads 42 52 2a 3a back as [66, 82, 42, 58], from a source holding just those bytes |
| Kinds.ByteListRead | steel/fields/compound.py:13-21 | a list of n one-byte unsigned integers reads exactly the next n bytes, one value per byte, when that many are left |
| Kinds.ReservedEncodesZeros | steel/fields/base.py:57-61 | a Reserved field encodes to size zero bytes whatever its value and decodes to None |
| Kinds.DecodeKReadable | steel/fields/strings.py:31-32 | decoding never raises IOError: text decoding fails only with ValueError |
| Kinds.KReadReadable | steel/fields/strings.py:13-29 | on a readable source, no field read raises IOError, and the source stays readable |
| Kinds.ReadValueReadable | steel/common/fields.py:142-148 | on a readable source read_value never raises IOError and leaves the source readable |
| Schema.EntryIndex | steel/common/fields.py:121-122 | looking a name up in the field table finds an entry of that name, and finds none exactly when no entry has it |
| Schema.SpanFrom | steel/byte/fields/integrity.py:22-41 | the walk of the field table collects only fields declared before the checksum, in increasing declaration order |
| Schema.Span | steel/byte/fields/integrity.py:19-41 | a CheckSum covers only fields declared before it |
| Schema.AttachToClass | steel/byte/fields/integrity.py:19-41 | the loop of attach_to_class collects exactly the span Span defines |
| Schema.SpanContiguous | steel/byte/fields/integrity.py:29-41 | the span is the contiguous run of fields from `first` (the first field when none is given) through `last`, or up to the checksum when `last` is not met; it is empty when `last` comes before `first` |
| Schema.CoveringFrom | steel/byte/fields/integrity.py:35-37 | the checksums subscribed to field j's after_encode are checksums declared after j whose span holds j |
| Schema.Covering | steel/byte/fields/integrity.py:35-37 | every checksum listed for field j is a CheckSum declared after j |
| Schema.CoveringComplete | steel/byte/fields/integrity.py:35-37 | every checksum whose span holds field j is listed among j's subscribers |
| Schema.IndexOfName | steel/common/fields.py:121-122 | with distinct names, a field's own name finds that field's entry |
| Engine.Fresh | steel/base.py:10-17 | a new instance has no raw bytes, no values, an empty write buffer and position 0; it reads from the given source, and without one it is in write mode, where reading is refused |
| Engine.CachedGet | steel/common/fields.py:167-175 | once raw bytes exist, a get changes nothing but the value cache: it stores the decoded value under the field's name, and a failed decode changes nothing |
| Engine.ScanSize | steel/common/args.py:54-67 | resolving a size while _extract works changes nothing but the value cache |
| Engine.Calculated | steel/byte/fields/integrity.py:61-63 | the calculated checksum is masked to the field's width: 0 <= value < 2^(8 * size) |
| Engine.ReadCheckSum | steel/byte/fields/integrity.py:49-59 | reading a checksum inside its structure stores no raw bytes and no values of its own |
| Engine.ReadFieldF | steel/base.py:62-70 | one pass of _extract stores exactly the bytes read under the field's name, and stores nothing when the read fails |
| Engine.ScanF | steel/base.py:60-73 | extraction never loses or changes raw bytes already stored; when it succeeds, every entry up to the requested one has raw bytes and the requested field's are returned |
| Engine.ExtractF | steel/base.py:60-73 | _extract keeps every stored raw entry and, when it succeeds, returns exactly the raw bytes now stored for the field |
| Engine.GetF | steel/common/fields.py:153-175 | getting a field never loses or changes stored raw bytes |
| Engine.ResolveBound | steel/common/args.py:54-67 | resolving a sizing argument with the instance bound never loses or changes stored raw bytes |
| Engine.EncodeBound | steel/common/fields.py:181-183 | encoding with the instance bound never loses or changes stored raw bytes |
| Engine.CalculatedF | steel/byte/fields/integrity.py:61-63 | computing a checksum's value never loses or changes stored raw bytes |
| Engine.SpanData | steel/byte/fields/integrity.py:62 | joining the span's extracted bytes never loses or changes stored raw bytes |
| Engine.LookupF | steel/common/fields.py:269-275 | resolving a condition operand never loses or changes stored raw bytes |
| Engine.Below | steel/fields/numbers.py:188-198 | numbers (bools included) are ordered by their integer value |
| Engine.Compare | steel/common/fields.py:192-196 | an == condition holds exactly when Python equality does, a != condition exactly when it does not |
| Engine.GuardedReads | steel/common/fields.py:279-288 | reading the guarded fields never loses or changes stored raw bytes |
| Engine.ConditionGetF | steel/common/fields.py:257-289 | getting a condition leaves every other raw entry as it was, and the attribute always reads as None |
| Engine.ConditionSetF | steel/common/fields.py:292-294 | assigning a condition stores the value and empty raw bytes under its name, and changes neither the source, the position nor the write buffer |
| Engine.ReadF | steel/base.py:24-31 | reading refuses with IOError outside read mode; a read returns exactly the bytes it took from the source, and a sized read advances the position by their number |
| Engine.WriteLoop | steel/base.py:33-55 | write reads from its own buffer, never from the instance's source |
| Engine.WriteFixedLoop | steel/base.py:33-55 | the corrected write also reads only from its own buffer |
| Engine.ConstructF | steel/base.py:18-19 | a source and keyword values together raise TypeError before anything is assigned |
| Engine.ParseF | steel/base.py:134-147 | a parse asked for n structures gives at most n, and exactly n unless it ended early |
| Engine.ParseOn | steel/base.py:134-147 | the same bound for a parse of n > 0 structures |
| EngineFacts.ScanFrame | steel/base.py:60-73 | the scan of _extract gives no raw bytes to any entry after the requested one, nor to the requested one when it fails |
| EngineFacts.ExtractFrame | steel/base.py:60-73 | a successful _extract of a field with no raw bytes leaves every field up to it with raw bytes; raw bytes already there are kept and fields after it are not touched |
| EngineFacts.GetTwice | steel/common/fields.py:167-175 | a second get of a field reads nothing, decodes nothing and gives the same value as the first |
| EngineFacts.KReadUnreadable | steel/base.py:25-26 | in write mode every field kind that reads from the source raises IOError at once and consumes nothing |
| EngineFacts.GetInWriteMode | steel/common/fields.py:159-165 | in write mode, getting a field nothing was written to gives its declared default, or AttributeError without one, and changes nothing |
| EngineFacts.ConditionOnce | steel/common/fields.py:261-263 | once a condition has been assigned, getting it reads and evaluates nothing, and its raw bytes are the empty ones the assignment recorded (lines 292-294) |
| EngineFacts.ConditionStores | steel/common/fields.py:277-289 | a condition that holds stores under its own name the raw bytes of its guarded fields joined in order, and a value for each guarded field; one that does not hold stores no raw bytes for itself |
| EngineFacts.GetOwnName | steel/base.py:60-73 | a get gives raw bytes only to fields, never to a condition |
| EngineFacts.GetKeepsValues | steel/common/fields.py:153-175 | a get never drops a value already stored |
| EngineFacts.ScanSizeKeeps | steel/common/args.py:54-67 | resolving a size while reading keeps every stored value: a sibling is decoded only when it has none |
| EngineFacts.SpanDataConcat | steel/byte/fields/integrity.py:62 | the data a checksum digests is the span fields' raw bytes joined in declaration order, and extracting them leaves those raw bytes in place |
| EngineFacts.RecomputeConsistent | steel/byte/fields/integrity.py:65-66 | assigning a checksum its calculated value makes it agree with its span, so that reading it passes the integrity check |
| EngineFacts.OneByteChangesSum | steel/byte/fields/integrity.py:61-69 | with the byte sum as digest, changing any one byte of the data changes the calculated value |
| EngineFacts.AlteredSpanFails | steel/byte/fields/integrity.py:57-58 | a checksum read over span bytes that differ in one place from those of a passing read fails with IntegrityError |
| EngineFacts.AlteredStoredFails | steel/byte/fields/integrity.py:57-58 | a checksum read whose stored bytes differ from those of a passing read over the same span fails with IntegrityError |
| EngineFacts.PlainIntegerSet | steel/common/fields.py:177-184 | assigning an Integer no checksum covers stores the value and its encoding, and nothing else |
| EngineFacts.SizeSiblingUpdated | steel/fields/base.py:11-14 | assigning a field whose size names an Integer sibling sets that sibling to the length of the assigned value, both its value and its raw bytes |
| EngineFacts.EncodeKeepsValue | steel/common/fields.py:182-183 | encoding the value just assigned leaves that value in place |
| EngineFacts.GetKeepsValue | steel/base.py:60-73 | a get of a field leaves alone the stored value of any name that is neither that field nor an entry before it |
| EngineFacts.ReadFieldKeepsOther | steel/base.py:62-70 | reading one field leaves alone the stored value of every other name |
| EngineFacts.ValidateCollects | steel/base.py:98-105 | validate keeps the failures collected so far first and adds at most one per entry, each a ValueError (IntegrityError included) |
| EngineFacts.ValidateRecords | steel/base.py:100-104 | a field whose validation raises a ValueError (IntegrityError included) has its failure recorded right after the earlier ones, a field that validates adds nothing, and any other error ends validate with that error |
| EngineFacts.ThreeEntriesCollected | steel/base.py:98-105 | a three-entry validate whose first entry fails with ValueError, whose second passes and whose third fails with IntegrityError returns exactly those two failures, in declaration order |
| EngineFacts.AbcAssigned | steel/common/fields.py:177-184 | assigning "abc" to a two-byte ASCII String stores the value and its three bytes as they are, with no size check at assignment |
| EngineFacts.TwoFailuresCollected | steel/base.py:98-105 | validate on a structure read from 05 06 with "abc" assigned to the two-byte `s` collects `s`'s ValueError and then the checksum's IntegrityError (06 where the byte sum of `x` is 5), in that order |
| ReadSave.ScanSkip | steel/base.py:61-72 | once the entries before k have raw bytes, the scan of _extract reaches k without reading anything |
| ReadSave.ScanSizeReadable | steel/common/args.py:54-67 | resolving a size during the scan, on a readable source, never raises IOError and leaves the source alone |
| ReadSave.ReadFieldReadable | steel/base.py:24-31 | reading one field on a readable source raises no IOError and keeps the source's mode; on success the field's raw bytes are exactly the bytes consumed, and the position counts them |
| ReadSave.GetNextField | steel/base.py:60-73 | getting the first field without raw bytes reads it from where the source stands and adds only its raw entry |
| ReadSave.SaveLoopReads | steel/base.py:75-82 | in the loop of get_raw_bytes over a freshly read structure, what was output followed by what the source still holds is what the source held at the start |
| ReadSave.SaveStep | steel/base.py:77-81 | one pass of get_raw_bytes over a fresh structure gets a field that has no raw bytes yet, which reads it |
| ReadSave.RawGrows | steel/base.py:60-73 | after reading field k the raw entries are exactly those of the fields up to k |
| ReadSave.ReadThenSave | steel/base.py:89-90 | saving a structure freshly read from a file writes exactly the bytes its reads consumed: followed by what is left in the file, they are the file's remaining contents at the start, and the position counts them |
| ReadSave.ReadThenSaveWhole | steel/base.py:89-90 | when the structure takes up the whole file, saving it gives back the file's contents |
| WriteSplit.ShortThenEmpty | steel/base.py:33-55 | the example structure, a two-byte integer and then an empty byte string, is a well-formed declaration |
| WriteSplit.SplitWriteAsWritten | steel/base.py:33-55 | as written, writing 2a and then 00 leaves "a" undecoded, with 00 in the carry buffer and the position at 1, while writing 2a 00 at once decodes "a" as 0x2a00 and ends at position 2 |
| WriteSplit.AsWrittenFirst | steel/base.py:49-54 | write(2a) as written: "a" runs out of data and 2a goes back to the carry buffer, then "b" reads nothing from the exhausted source and clears the buffer |
| WriteSplit.AsWrittenSecond | steel/base.py:36-54 | write(00) after that: "a" runs out of data again and "b" already has its value |
| WriteSplit.AsWrittenWhole | steel/base.py:33-55 | write(2a 00) decodes both fields and ends at position 2 |
| WriteSplit.SplitWriteFixedExample | steel/base.py:33-55 | corrected, on the same bytes: the first write stops at "a" and keeps 2a in the carry buffer, and the second write ends exactly like the whole write |
| WriteSplit.ReadExt | steel/base.py:123-127 | a strict read of n bytes gives the same bytes from a source that holds more data after them |
| WriteSplit.KReadExt | steel/base.py:118-127 | a field read on a prefix of the data either runs out of data or does exactly what it does on the whole data |
| WriteSplit.ReadValueExt | steel/base.py:41-46 | the same for read-then-decode |
| WriteSplit.WriteReadExt | steel/base.py:41-46 | the same for what write reads for one field |
| WriteSplit.SkipDecoded | steel/base.py:39 | entries that already have values are skipped by write |
| WriteSplit.Lockstep | steel/base.py:38-55 | two runs of the write loop over sources holding the same bytes end alike |
| WriteSplit.LockstepFails | steel/base.py:50-52 | a read that fails ends both runs alike: running out of data keeps the same bytes in both carry buffers, any other error is raised by both |
| WriteSplit.OutOfData | steel/base.py:50-52 | a field that runs out of data ends the corrected write, the carry buffer holding what the source still holds and the position counting what came before |
| WriteSplit.Raises | steel/base.py:40-50 | a field read that fails otherwise makes the write raise that error |
| WriteSplit.ReadStep | steel/base.py:47-54 | a successful read in write stores the field's bytes and value and clears the carry buffer |
| WriteSplit.PrefixRun | steel/base.py:33-55 | the first write and the whole write run alike while the first one's reads succeed; from the field that ran out of data on, the second write and the whole write run alike |
| WriteSplit.WriteInPieces | steel/base.py:33-55 | with the corrected write, writing x and then y ends like writing x + y at once: the same result, raw bytes and values, and the whole same state on success |
| Structures.Structure.constructor | steel/base.py:11-16 | a new instance starts with no raw bytes, no values, an empty buffer and position 0, over the given source or in write mode |
| Structures.Structure.Read | steel/base.py:24-31 | read updates the instance's source and position exactly as ReadF says: IOError outside read mode, the bytes taken, and a position advanced by their number for a sized read |
| Structures.Structure.Tell | steel/base.py:57-58 | tell gives the position |
| Structures.Structure.CachedGet | steel/common/fields.py:167-175 | the cached or freshly decoded value, with the value cache updated as CachedGet says |
| Structures.Structure.ScanSize | steel/common/args.py:54-67 | the size a field sees while _extract reads it, as ScanSize says |
| Structures.Structure.ReadCheckSum | steel/byte/fields/integrity.py:49-59 | reads the stored checksum and compares it with the value calculated from the span, as ReadCheckSum says |
| Structures.Structure.JoinRaw | steel/byte/fields/integrity.py:62 | the loop over the span gives the span's raw bytes joined in order |
| Structures.Structure.ReadField | steel/base.py:62-70 | one pass of _extract, ending in the state ReadFieldF gives |
| Structures.Structure.Extract | steel/base.py:60-73 | _extract's loop ends in the state, with the bytes, that ExtractF gives |
| Structures.Structure.Get | steel/common/fields.py:153-175 | __get__ ends in the state, with the value, that GetF gives |
| Structures.Structure.ResolveBound | steel/common/args.py:54-67 | a sizing argument resolved with the instance bound, as ResolveBound says |
| Structures.Structure.Encode | steel/common/fields.py:181-183 | encoding with the instance bound, as EncodeBound says |
| Structures.Structure.Set | steel/common/fields.py:177-184 | __set__ ends in the state SetF gives: the value kept, its encoding stored, the subscribers run |
| Structures.Structure.AfterEncode | steel/common/fields.py:11-43 | the after_encode subscribers of a field run as AfterEncode says: the size hook, then each covering checksum |
| Structures.Structure.RunHooks | steel/byte/fields/integrity.py:37 | the recompute hooks of the covering checksums run in order, as Hooks says |
| Structures.Structure.UpdateEncodedValue | steel/byte/fields/integrity.py:65-66 | the checksum is assigned its calculated value, as UpdateEncodedValueF says |
| Structures.Structure.Calculate | steel/byte/fields/integrity.py:61-63 | get_calculated_value extracts each span field in order and masks the digest, as CalculatedF says |
| Structures.Structure.Lookup | steel/common/fields.py:269-275 | a condition operand is resolved as LookupF says |
| Structures.Structure.ConditionGet | steel/common/fields.py:257-289 | __get__ of a condition ends in the state ConditionGetF gives, and the attribute reads as None |
| Structures.Structure.ReadGuarded | steel/common/fields.py:279-288 | the loop over the guarded fields reads each in order, keeps its value and joins the bytes, as GuardedReads says |
| Structures.Structure.ConditionSet | steel/common/fields.py:292-294 | assigning a condition stores the value and empty raw bytes, as ConditionSetF says |
| Structures.Structure.GetAttr | steel/common/fields.py:153-175 | getattr of any name ends as GetAttrF says |
| Structures.Structure.SetAttr | steel/common/fields.py:177-184 | setattr of any name ends as SetAttrF says |
| Structures.Structure.Write | steel/base.py:33-55 | write as written ends in the state WriteF gives: a field that runs out of data keeps the rest in the carry buffer, and the later fields are still tried with the source at its end; for condition-free schemas whose fields each need a byte this is the corrected write (WriteSized.WriteAgrees), so writing in pieces is writing at once (WriteSized.WriteInPieces) |
| Structures.Structure.WriteCorrected | steel/base.py:33-55 | the corrected write ends in the state WriteFixed gives: the first field that runs out of data ends the write |
| Structures.Structure.GetRawBytes | steel/base.py:75-82 | get_raw_bytes gives the bytes, and ends in the state, that GetRawBytesF gives |
| Structures.Structure.ValidateField | steel/common/fields.py:124-133 | one field's validate, as ValidateFieldF says |
| Structures.Structure.Validate | steel/base.py:98-105 | validate collects the failures ValidateF gives: each field's ValueError (IntegrityError included) in declaration order, and any other error raised (EngineFacts.ValidateCollects, EngineFacts.ValidateRecords) |
| Structures.Structure.Force | steel/base.py:139-140 | getting every entry in declaration order ends as ForceLoop says |
| Structures.Create | steel/base.py:10-22 | building a structure succeeds exactly when ConstructF does, with a fresh instance in its state, and fails with its error otherwise |
| Structures.ParseOne | steel/base.py:136-147 | one structure of the parse: a failure ends the stream, at its end when the source did not move and raising the error otherwise; a success goes on from where the structure stopped |
| Structures.Parse | steel/base.py:134-147 | the stream gives structures whose states are exactly those of ParseF, ending as ParseF ends |
| Structures.ParseAdvance | steel/base.py:135-147 | the parse goes on after one more structure, its state joining those already produced |
| Chunks.FormTagBuilt | steel/chunks/iff.py:17 | FixedString('FORM') with its default arguments builds the four ASCII bytes FORM as both its encoding and its default |
| Chunks.IffChunkLayout | steel/chunks/iff.py:10-13 | the IFF chunk (a 4-byte id, a 4-byte size, a payload sized by it) is a declaration the engine runs |
| Chunks.IffFormLayout | steel/chunks/iff.py:16-20 | the IFF form (the FORM tag, a size, an id, a payload sized by it) is a declaration the engine runs |
| Chunks.IffLayouts | steel/chunks/iff.py:10-20 | both IFF layouts declare no condition and use only codecs that fail with ValueError |
| Chunks.ChunkRead | steel/chunks/base.py:30-40 | Chunk.read over a new frame instance gives the bytes and the frame state ChunkReadF says |
| Chunks.ChunkReadConsumes | steel/chunks/base.py:30-40 | a frame read from a readable source returns exactly the bytes it consumed, with every field read, and its position counts them |
| Chunks.ChunkReadInOrder | steel/chunks/base.py:35-38 | the bytes Chunk.read returns are the frame fields' raw bytes joined in declaration order |
| Chunks.KnownTypes | steel/chunks/base.py:84 | every known class's id is registered, and every registered id maps to a known class with that id |
| Chunks.KnownTypesLast | steel/chunks/base.py:84 | of several classes sharing an id, the last one given wins |
| Chunks.ClassifyFrame | steel/chunks/base.py:93-103 | the loop body after a frame is read decides keep, skip, stop or fail as ClassifyF says |
| Chunks.ReadChunkList | steel/chunks/base.py:87-104 | the loop of ChunkList.read gives exactly the outcome ChunkListReadF defines |
| Chunks.ListLoopGathers | steel/chunks/base.py:88-97 | the loop only appends: what it gathered before stays in front of everything it reads later |
| Chunks.KnownFrameKept | steel/chunks/base.py:93-97 | a frame with a registered id, when the frame class is not the terminator, contributes the member built from its payload, ahead of the members of the frames after it |
| Chunks.UnknownFrameSkipped | steel/chunks/base.py:98-100 | a frame whose id is true but unregistered is consumed and contributes no member |
| Chunks.EmptyIdEnds | steel/chunks/base.py:101-104 | a frame whose id is false ends the list with no member, its bytes included in the list's bytes |
| Chunks.FrameTerminatorKeepsNothing | steel/chunks/base.py:95-96 | with the frame class as terminator, the first frame with a registered id ends the list before its member is appended, so a decoded list keeps no member |
| Chunks.MemberTerminatorIgnored | steel/chunks/base.py:95 | a chunk class as terminator never matches a frame: the list reads exactly as with no terminator |
| Chunks.FrameConsumes | steel/chunks/base.py:91-94 | one frame on a readable source consumes exactly the bytes it returns, and looking at its id and payload reads nothing more |
| Chunks.ListLoopConsumes | steel/chunks/base.py:88-104 | on a readable source, the bytes of a decoded list are exactly the bytes its frames consumed, the one that ended it included |
| Chunks.ListConsumes | steel/chunks/base.py:87-104 | ChunkList.read returns as its raw bytes exactly what it consumed |
| Chunks.Save | steel/chunks/base.py:63-69 | ChunkMixin.save on a new frame instance writes what SaveF says: the frame built with the class's id gets the member's bytes as payload and their length as size, then its raw bytes are written (worked out for both IFF frames by ChunkSave.IffChunkSave and ChunkSave.IffFormSaveRefused) |
| Chunks.Encode | steel/chunks/base.py:106-115 | ChunkList.encode writing into a buffer gives exactly EncodeF |
| Chunks.EncodeLoopWrites | steel/chunks/base.py:108-111 | the member loop succeeds exactly when every member is of a registered class and can be saved, and then writes their frames in order; an unregistered member reached before any failing save raises TypeError |
| Chunks.FirstUnwritable | steel/chunks/base.py:108-111 | the first member that cannot be written is one of an unregistered class or whose save fails |
| Chunks.EncodeTerminated | steel/chunks/base.py:112-115 | encode writes the members' frames, then a terminator exactly when one is set and the last member is not an instance of it |
| Chunks.EncodeEmptyUnbound | steel/chunks/base.py:108-112 | with a terminator set and no member, encode raises NameError; with neither it gives nothing |
| Chunks.EncodeRejectsUnknown | steel/chunks/base.py:109-110 | a member of an unregistered class that comes before any failing save makes encode raise TypeError |
| Chunks.OfTypeExactly | steel/chunks/base.py:119-120 | of_type keeps exactly the members of the class |
| Chunks.OfTypeConcat | steel/chunks/base.py:119-120 | of_type keeps the list's order: filtering a concatenation concatenates the filtered parts |
| Chunks.OfTypeAll | steel/chunks/base.py:119-120 | a list of one class only is its own of_type |
| Chunks.MemberInitF | steel/chunks/base.py:47-61 | without a positional source or with process_chunk=False nothing is read; a member built over a frame had a frame id equal to the class's, and any other id raises ValueError |
| Chunks.MemberInit | steel/chunks/base.py:47-61 | ChunkMixin.__init__ over a new frame instance ends as MemberInitF says |
| Chunks.RegisteredMaps | steel/chunks/base.py:129-133 | after parser(*classes)(func) the parsers hold exactly the old ids and the classes' ids, each class id mapped to func, every other id keeping its parser |
| Chunks.StreamNext | steel/chunks/base.py:137-152 | one frame of the stream either gives an item or ends it with a stop or an error; with the frame class as terminator it never gives a parser's result |
| Chunks.UnrollExtends | steel/chunks/base.py:135-152 | a stream asked for one more item gives the same items first, and one that ended early ends the same way |
| Chunks.UnrollLength | steel/chunks/base.py:135-152 | a stream gives at most the items asked for, all of them unless it ended early |
| Chunks.StreamExtends | steel/chunks/base.py:135-152 | the first n items of ChunkStreamer.parse do not depend on how many more are wanted |
| Chunks.StreamLength | steel/chunks/base.py:135-152 | ChunkStreamer.parse gives at most n items when asked for n, and exactly n unless it ended early |
| Chunks.StreamFrameTerminator | steel/chunks/base.py:141-143 | with the frame class as terminator, no parser's result is ever yielded: every item is an unrecognised frame |
| Chunks.NextFrame | steel/chunks/base.py:137-152 | one frame of parse over a new instance ends as StreamNext says |
| Chunks.StreamOne | steel/chunks/base.py:136-152 | the stream's next frame either ends the stream there or gives its item ahead of the rest of the stream read from where it stopped |
| Chunks.ParseFrames | steel/chunks/base.py:135-152 | the parse loop, frame after frame from where the previous one stopped, gives exactly the stream StreamF defines |
| Chunks.ChunkStreamer.constructor | steel/chunks/base.py:124-127 | a new streamer has its frame, its terminator and no parsers |
| Chunks.ChunkStreamer.Parser | steel/chunks/base.py:129-133 | registering updates the parsers to the map Registered gives |
| Chunks.ChunkStreamer.Parse | steel/chunks/base.py:135-152 | the streamer's parse gives exactly the stream StreamF defines for its parsers and terminator |
| Chunks.OfType | steel/chunks/base.py:119-120 | of_type never gives more members than the list holds |
| ChunkSave.IdBytes | steel/chunks/iff.py:11 | the id field's bytes are the ASCII encoding of the id, NUL padded to four bytes, with a longer id kept whole |
| ChunkSave.IdSet | steel/common/fields.py:177-184 | assigning an ASCII id to a 4-byte ASCII string field stores the value and its padded bytes and changes nothing else; any other text is refused with ValueError |
| ChunkSave.SizeSet | steel/common/fields.py:177-184 | assigning n to a 4-byte unsigned size field stores n and its four big-endian bytes when 0 <= n < 2^32, and raises ValueError otherwise |
| ChunkSave.PayloadSet | steel/common/fields.py:65-68 | assigning a payload stores its bytes and, through the size hook, its length in the sibling size field; a payload of 2^32 bytes or more cannot be sized and raises ValueError |
| ChunkSave.RawBytesAll | steel/base.py:75-82 | get_raw_bytes over a frame whose fields all have values and raw bytes gives those raw bytes joined in declaration order and changes nothing |
| ChunkSave.FrameSave | steel/chunks/base.py:63-69 | save on any frame with an id, a size and a payload sized by it: a non-ASCII id or a payload too long for a 4-byte size is refused with ValueError, otherwise the result is get_raw_bytes of the frame once id, payload and size are assigned |
| ChunkSave.IffChunkSave | steel/chunks/base.py:63-69 | saving a member through the IFF Chunk frame writes the id's padded ASCII bytes, the payload's length as four big-endian bytes, and the payload, and raises ValueError exactly when the id is not ASCII or the payload has 2^32 bytes or more |
| ChunkSave.IffChunkFrame | steel/chunks/iff.py:10-13 | for an ASCII id of at most four characters, the saved frame is 8 bytes longer than the payload; its first four bytes are the id followed by NULs, the next four decode big-endian to the payload's length, and the payload follows |
| ChunkSave.UnreadFirstGet | steel/common/fields.py:160-165 | in write mode a fixed string with no raw bytes cannot be extracted, so getting it gives its default and changes nothing |
| ChunkSave.FixedSet | steel/fields/strings.py:100-103 | assigning a fixed string stores its fixed encoding when the value is the declared literal, and raises ValueError for any other value |
| ChunkSave.FirstFixedRaw | steel/base.py:78-81 | get_raw_bytes reaching a leading fixed string with no raw bytes assigns it its default: ValueError unless the default is the declared literal, and otherwise it goes on with the encoding emitted |
| ChunkSave.TaggedRefused | steel/base.py:75-82 | save on a frame led by a fixed string whose default is not its declared literal raises ValueError for every id and payload |
| ChunkSave.TaggedWrites | steel/base.py:75-82 | save on a frame led by a fixed string whose default is its literal writes the literal's bytes, then the size, id and payload bytes; the refusals are those of the Chunk frame |
| ChunkSave.IffFormSaveRefused | steel/fields/strings.py:83 | the IFF FORM frame as declared cannot be saved: its tag defaults to the bytes b'FORM', and assigning them back compares them with the text 'FORM', so save raises ValueError for every id and payload |
| ChunkSave.IffFormIntendedSave | steel/chunks/iff.py:16-20 | with the tag defaulting to the text 'FORM', saving through the FORM frame writes FORM, the payload's length as four big-endian bytes, the padded ASCII form type and the payload, and raises ValueError exactly when the id is not ASCII or the payload has 2^32 bytes or more |
| WriteSized.DrainedReadValue | steel/base.py:42-43 | a field whose read needs at least one byte runs out of data on a source whose bytes are all consumed |
| WriteSized.DrainedWriteRead | steel/base.py:41-46 | what write reads for such a field runs out of data on a drained source |
| WriteSized.DrainedLoop | steel/base.py:38-54 | past the field that ran out of data, the as-written loop over fields that each need a byte ends successfully with the same bytes in the carry buffer and the position moved by the last decoded offset |
| WriteSized.LoopsAgree | steel/base.py:38-55 | for condition-free schemas whose fields each need a byte, the as-written write loop and the corrected one end in the same result and state from any entry on |
| WriteSized.WriteAgrees | steel/base.py:33-55 | for such schemas write as written is the corrected write |
| WriteSized.OutOfData | steel/base.py:50-52 | for such schemas a field that runs out of data ends write as written, the carry buffer holding what the source still holds and the position counting what came before |
| WriteSized.SizedIncremental | steel/base.py:42 | a field whose read needs a byte reads a prefix of the data the way writing in pieces needs |
| WriteSized.WriteInPieces | steel/base.py:33-55 | for such schemas, writing x and then y with write as written ends like writing x + y at once: the same result, raw bytes and values, and the whole same state on success |

## Left out

- Declaration-time metaprogramming is not modelled. This covers the `sys._getframe` namespace injection, descriptors and `__prepare__`. A schema is an explicit ordered list of named entries, and condition blocks are entries of their own.
- The thread-local `instance_stack` and `field_options` are not modelled. The bound instance and the options are passed explicitly, and `Declarations` models the stack as a value.
- Real text codecs (`str.encode`, `bytes.decode`, LookupError for an unknown encoding) are not modelled, because they are foreign calls. A codec is an abstract injective pair of partial maps, with ASCII as a concrete one.
- The zlib digests (CRC-32, Adler-32) and the Zlib fields are not modelled, because they are foreign calls. A checksum's digest is the byte sum, the default.
- FixedPoint and CalculatedValue are not modelled, because they need decimals, true division and closures. StructureTuple is not modelled either, because it cannot run as written (`self` in `__new__`, an undefined `FullyDecoded`).
- The getter and setter functions a field can register (`_getters`, `_setters`, steel/common/fields.py:55-62) are not modelled. No `after_decode` subscriber is registered anywhere in the core, so firing it changes nothing and is left out.
- Only `==`, `!=`, `<` and `>` on an Integer build a Condition, because the source's `__lte__`/`__gte__` are not operator methods. Ordering comparisons of lists are not modelled.
- A schema entry's `default` is given explicitly. FixedInteger and FixedString setting their own default to their encoding (steel/fields/numbers.py:208, steel/fields/strings.py:83) is not done automatically; the IFF FORM frame's tag is given that default as the source sets it.
- LengthIndexedString's size prefix is limited to an unsigned fixed-width integer field.
- A dictionary lookup of a parser or a registered chunk class compares values with structural equality. `isinstance` against a class is equality of class references.
- A chunk member's own serialisation is given as its bytes, since the member classes are user code. So are ChunkMixin's other keyword arguments and the function a `parser` decorates: a parser is an index applied to the payload.
- The subscriber set of a field is run in the fixed order size hook first, then the checksums that cover it in declaration order. A Python set has no defined order; the final state is the same for the hooks modelled.
- Generators are modelled by their first n items. The rest of an infinite stream is not described.
- The `biwako` packages other than the bit and byte codecs are not modelled, nor are csv, compression, the examples and setup.py. They are earlier or unrelated revisions.
- Numbers.IntegerEncode, Numbers.IntegerDecode, BinNumbers.IntegerEncode: `IntegerField.Valid` excludes a signed Integer of size 0, so these members, `Kinds.Kind.Valid` and `Schema.WellFormed` do not cover it. The source's signings over 0 bits behave oddly. TwosComplement(0) encode raises ValueError at `1 << -1` (steel/fields/numbers.py:80), and decoding b'' gives -1 (steel/fields/numbers.py:88-90). SignMagnitude(0) and OnesComplement(0) encode 0 to b'' (steel/fields/numbers.py:42-47, 61-65), and decoding raises ValueError at `value >> -1` (steel/fields/numbers.py:50, 69). Covering them would make the byte Integer's decode partial for every caller. The bit fields cover these 0-bit cases through `Bits.SignBits` and `Bits.UnsignBits`.
- Numbers.MakeFixedInteger requires a size of at least one byte for a negative fixed value with an explicit size, because an Integer of size 0 has no signing range. The same goes for BinNumbers.MakeFixedInteger.
- BitStructures.GetRawBytes takes the fields' raw bit values as given. Encoding a field that has none first (steel/bits/base.py:34-35) is not modelled.
- WriteSplit.WriteInPieces holds only for schemas whose fields all have non-negative fixed sizes, since a negative size reads everything that is left.
- EngineFacts.SizeSiblingUpdated covers a size sibling that is an unsigned Integer with no checksum covering either field.
- EngineFacts.RecomputeConsistent covers an unsigned checksum that no other checksum covers.
- EngineFacts.AlteredStoredFails covers an unsigned checksum only.
- Kinds.EncodeK: a Bytes field's value is typed as bytes, so assigning anything else is refused with TypeError at assignment. The source's Bytes.encode (steel/fields/strings.py:107-109) passes any value through, and any failure comes later.
- Schema.WellFormed excludes a size argument that names a later top-level field. Reading such a structure raises RecursionError, but one built by assignment and saved works; that case is not modelled.
- Chunks.PayloadKind: Payload.read raises FullyDecoded with the bytes and a BytesIO over them as the value (steel/chunks/base.py:72-75). The model keeps the bytes themselves as the value, because a stream object is not a value.
- WriteSized.WriteAgrees holds for schemas without conditions whose fields each need at least one byte. A field that needs none succeeds on the drained source, and a condition raises AttributeError there.
- Args.SetAttr: an Override of `name` or of a method name is kept in the argument's `shadowed` map and never read back. In the source the attribute is replaced: a new `name` changes the key `__get__` reads from `instance.__dict__` (steel/common/args.py:54-58), and a replaced method is called in place of the original. Neither effect is modelled.

## Findings

| source | as written | input that shows it | evidently intended | confidence | as-written member | corrected member |
|---|---|---|---|---|---|---|
| steel/base.py:33-55 | after a field runs out of data, `write` goes on to the later fields with the source at its end; a later field that needs no bytes succeeds, clears the carry buffer and moves the position | schema `a` Integer(size=2), `b` Bytes(size=0): writing `2a` and then `00` leaves `a` undecoded with carry buffer `00` and position 1, while writing `2a 00` at once gives `a = 0x2a00` and position 2 | feeding the same bytes in one call or in several decodes the same fields | not executed | WriteSplit.SplitWriteAsWritten | WriteSplit.WriteInPieces |
| steel/common/meta.py:37-40 | the field tables of the bases are merged left to right, so the right-most base's field wins a name clash | two bases that both declare `x` (Meta.BaseOrderCounterexample): the merged table holds the second base's `x` | the left-most base wins, as in Python attribute lookup and as the argument-table merge at steel/common/meta.py:57-68 does. The corrected merge in the model also reorders bases that share no name, to [b, a] for [a, b] (Meta.DisjointBasesReordered), so `Meta.StructureClass` and `StructureFields` keep the as-written merge | not executed | Meta.InheritedAsWrittenRightmost | Meta.InheritedLeftmostWins |
| steel/fields/strings.py:83 | FixedString sets its default to its encoded value, while encode accepts only the decoded value (steel/fields/strings.py:100-102) | saving any member through the IFF FORM frame: get_raw_bytes assigns the tag its default b'FORM', and encode compares it with the text 'FORM', so ValueError is raised whatever the id and payload | the default is the decoded value, which a read gives and encode accepts; save then writes FORM, the size, the id and the payload | not executed | ChunkSave.IffFormSaveRefused | ChunkSave.IffFormIntendedSave |
