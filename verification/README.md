# NetSerializer core, modelled in Dafny

NetSerializer is a binary serializer for .NET. A `Serializer` is built once, from a list of
root types or from an explicit type-to-id map. Building it does four things:

- it walks the types reachable from the roots;
- it gives each type a numeric id;
- it selects a type serializer (a *handler*) for each type;
- it generates, on demand, a writer and a reader routine per type.

On the wire each object is its type id followed by what its writer emits. Primitive values
use a compact encoding: zig-zag varints for signed integers, varints for unsigned ones,
length-prefixed UTF-8 for strings and length-prefixed bytes for `byte[]`.

This project models that core:

- **The primitive wire format.** ZigZag, Varint, Utf8, Primitives and PrimitiveIO. There are
  pure encoders and decoders, with round-trip lemmas. There are also imperative writers and
  readers over a stream object, proved against them.
- **Field order of a serialized class.** Helpers.
- **The handler table and handler selection.** Handlers.
- **The delegate factories.** Delegates.
- **What the generated routines do.** Routines. The routines the IL generators emit are
  given as operation lists with a run semantics. The lemmas show that a generated writer
  and the matching reader round-trip a value.
- **The type descriptor.** Descriptors, a class whose routine and delegate slots are filled
  in place.
- **The two-pass routine generation and its invariants.** Generation.
- **The two hand-written stores.** TypeIds is the id-indexed, power-of-two growing array.
  TypeDict is the identity-hashed dictionary with bucket doubling. Both are classes over
  arrays.
- **The Serializer object itself.** Registry covers:
  - registration by roots or by map;
  - Collect;
  - writer and reader generation;
  - the delegate caches;
  - the id and trampoline lookups;
  - both constructors.

Reflection is modelled as a finite universe of type descriptions (`TypeInfo`). That universe
is a parameter of the serializer. `RuntimeHelpers.GetHashCode` is also a parameter, a
function from type names to 32-bit integers.

## Model

| member | source | states |
|---|---|---|
| ZigZag.Encode | NetSerializer/Primitives.cs:34-42 | the code fits in width bits, and is 2n for n >= 0 and -2n-1 for n < 0 |
| ZigZag.Decode | NetSerializer/Primitives.cs:44-52 | the decoded value is a signed width-bit integer, non-negative exactly when the code is even |
| ZigZag.DecodeEncode | NetSerializer/Primitives.cs:34-52 | decoding inverts encoding on every signed width-bit integer |
| ZigZag.EncodeDecode | NetSerializer/Primitives.cs:34-52 | encoding inverts decoding on every unsigned width-bit code, so the mapping is a bijection |
| ZigZag.EncodeParity | NetSerializer/Primitives.cs:34-42 | non-negative values get even codes, negative ones odd codes |
| Varint.BytesShape | NetSerializer/Primitives.cs:74-80 | every byte the writer emits but the last has the continuation bit, the last group is not a superfluous zero, and the 7-bit groups spell the value |
| Varint.BytesLength | NetSerializer/Primitives.cs:74-80 | the encoding is shortest: at most m bytes exactly when the value fits in 7m bits |
| Varint.BytesFit | NetSerializer/Primitives.cs:102-108 | a uint32 takes at most 5 bytes, a uint64 at most 10 |
| Varint.DecodeOutcome | NetSerializer/Primitives.cs:54-72 | the reader fails exactly when every byte in its window (5 or 10 bytes) carries the continuation bit; InvalidDataException when the whole window was there, EndOfStreamException when the data ended first; on success it stops right after the first byte without that bit |
| Varint.DecodeBounds | NetSerializer/Primitives.cs:82-100 | the reader consumes at least one byte and yields a width-bit value |
| Varint.DecodeBytes | NetSerializer/Primitives.cs:54-108 | reading back what the writer emitted at data[pos..q] gives the value and stops at q |
| Varint.WriteVarint | NetSerializer/Primitives.cs:74-80 | the loop appends exactly the varint bytes of the value to the stream |
| Varint.ReadVarint | NetSerializer/Primitives.cs:54-72 | the loop agrees with the decoder; on failure the stream has been advanced over every byte the loop read |
| Utf8.EncodeChar | NetSerializer/Primitives.cs:327-336 | one character is 1 to 4 UTF-8 bytes, a single byte exactly when the first byte is below 0x80 |
| Utf8.DecodeEncode | NetSerializer/Primitives.cs:359-373 | the decoder gives back every string the encoder wrote |
| Utf8.EncodeDecode | NetSerializer/Primitives.cs:359-373 | only encodings decode: an accepted byte sequence is the encoding of what it decodes to (invalid input throws) |
| Utf8.EncodeInjective | NetSerializer/Primitives.cs:327-336 | distinct strings have distinct UTF-8 encodings |
| Utf8.LengthAtMostBytes | NetSerializer/Primitives.cs:329-333 | a string's UTF-16 length never exceeds its UTF-8 byte count |
| Primitives.DecimalFromWords | NetSerializer/Primitives.cs:295-312 | `new decimal(int[])` fails only with ArgumentException, and a decimal it builds has a valid flags word (a sign bit and a scale of at most 28) |
| Primitives.FlagsShape | NetSerializer/Primitives.cs:286-309 | a valid flags word is exactly a sign bit plus a scale of at most 28 in bits 16-23 |
| Primitives.DecimalWordsRoundTrip | NetSerializer/Primitives.cs:276-312 | the three words the writer emits for a decimal (low, mid, then high and scale/sign packed) are read back as that decimal |
| Primitives.DecodeByteSized | NetSerializer/Primitives.cs:116-140 | the bool, byte and sbyte readers never fail, because the -1 of ReadByte at the end of the stream is not checked; they return a value of their kind |
| Primitives.DecodeVarintSized | NetSerializer/Primitives.cs:142-272 | a successful varint-based reader consumes at least one byte and returns a value of its kind |
| Primitives.ReadFully | NetSerializer/Primitives.cs:363-371 | the read loop yields exactly n bytes, or EndOfStreamException when fewer remain |
| Primitives.OversizedPrefixFails | NetSerializer/Primitives.cs:341-409 | a string or byte[] whose length prefix minus one exceeds Array.MaxLength fails with OutOfMemoryException, whatever follows |
| Primitives.DecodedWellFormed | NetSerializer/Primitives.cs:341-419 | every string or byte[] the readers return is at most Array.MaxLength bytes long, so it can be written again |
| Primitives.DecodeEncode | NetSerializer/Primitives.cs:111-419 | every well-formed primitive of each of the sixteen kinds, encoded at data[pos..q], is read back by its kind's reader, which stops at q |
| Primitives.StringRoundTrip | NetSerializer/Primitives.cs:314-374 | null, empty and non-empty strings round-trip through the length-prefixed UTF-8 format |
| Primitives.ByteArrayRoundTrip | NetSerializer/Primitives.cs:377-419 | null, empty and non-empty byte arrays round-trip |
| Primitives.DecimalRoundTrip | NetSerializer/Primitives.cs:276-312 | every decimal round-trips through its three varints |
| PrimitiveIO.WritePrimitive | NetSerializer/Primitives.cs:111-388 | each WritePrimitive overload appends exactly the encoding of its value to the stream |
| PrimitiveIO.WriteVarintSized | NetSerializer/Primitives.cs:142-272 | the one-varint overloads append the zig-zag or plain varint of the value |
| PrimitiveIO.WriteDecimal | NetSerializer/Primitives.cs:276-293 | appends the three varints of the decimal |
| PrimitiveIO.WriteString | NetSerializer/Primitives.cs:314-339 | appends 0 for null, 1 for "", otherwise byte count + 1, the UTF-16 length, then the UTF-8 bytes |
| PrimitiveIO.WriteByteArray | NetSerializer/Primitives.cs:377-388 | appends 0 for null, otherwise length + 1 and then the bytes |
| PrimitiveIO.ReadPrimitive | NetSerializer/Primitives.cs:111-419 | each ReadPrimitive overload returns what the decoder of its kind returns and leaves the stream where the decoder stops |
| PrimitiveIO.ReadByteSized | NetSerializer/Primitives.cs:116-140 | one ReadByte, its -1 unchecked, as the decoder says |
| PrimitiveIO.ReadVarintSized | NetSerializer/Primitives.cs:142-272 | the one-varint readers agree with the decoder |
| PrimitiveIO.ReadFully | NetSerializer/Primitives.cs:363-371 | the Stream.Read loop fills the buffer with the next n bytes, or throws EndOfStreamException when a Read returns 0 |
| PrimitiveIO.ReadString | NetSerializer/Primitives.cs:341-374 | agrees with the string decoder, so a byte count above Array.MaxLength is OutOfMemoryException before any byte is read |
| PrimitiveIO.ReadByteArray | NetSerializer/Primitives.cs:392-419 | agrees with the byte[] decoder, so a length above Array.MaxLength is OutOfMemoryException before any byte is read |
| PrimitiveIO.ReadDecimal | NetSerializer/Primitives.cs:295-312 | agrees with the decimal decoder, including its ArgumentException |
| Helpers.OrdinalBySurrogates | NetSerializer/Helpers.cs:27 | the name order is ordinal over UTF-16 code units, not code points: U+1D400 sorts before U+FF21 |
| Helpers.SortByNameSpec | NetSerializer/Helpers.cs:27 | the sort result is ordered by name and is a permutation of its input |
| Helpers.FieldInfosLayout | NetSerializer/Helpers.cs:21-33 | the fields of a type are its base type's fields followed by exactly its own serialized fields, sorted by name |
| Helpers.FieldInfosContent | NetSerializer/Helpers.cs:25-26 | the result holds, as a multiset, exactly the fields declared along the base chain that are neither static, literal nor [NonSerialized] |
| Handlers.PrimitiveKindExact | NetSerializer/TypeSerializers/PrimitivesSerializer.cs:18-56 | a type name has a WritePrimitive/ReadPrimitive overload exactly when it is on the supported-type list, and that overload takes exactly that type |
| Handlers.PrimitiveKindOfName | NetSerializer/TypeSerializers/PrimitivesSerializer.cs:53-56 | every primitive kind is found again from its type name |
| Handlers.Handles | NetSerializer/TypeSerializers/GenericSerializer.cs:21-27 | only GenericSerializer can throw from Handles, with NotSupportedException for a type that is not [Serializable] |
| Handlers.BuiltinSerializers | NetSerializer/Serializer.cs:33-42 | the built-in table has seven handlers, consulted in order, and GenericSerializer is the last |
| Handlers.FirstHandlingFound | NetSerializer/Serializer.cs:378-386 | a found handler takes the type and every handler before it declines |
| Handlers.FirstHandlingNone | NetSerializer/Serializer.cs:378-386 | no handler found means every handler declines |
| Handlers.FirstHandlingFails | NetSerializer/Serializer.cs:378-386 | a failed search is GenericSerializer's NotSupportedException |
| Handlers.TypeSerializerFirstMatch | NetSerializer/Serializer.cs:378-386 | custom handlers are consulted before the built-in ones; the first that takes the type is selected; selection fails only with NotSupportedException |
| Handlers.BuiltinsSelectUnlessNotSerializable | NetSerializer/Serializer.cs:33-42 | with the built-in table last, selection fails only for a type that is not [Serializable] |
| Handlers.PrimitivesSerializerRoutines | NetSerializer/TypeSerializers/PrimitivesSerializer.cs:33-51 | PrimitivesSerializer takes exactly the sixteen listed types, reports no subtypes, and uses the overloads for that type as its static routines |
| Handlers.EnumSerializerRoutines | NetSerializer/TypeSerializers/EnumSerializer.cs:18-46 | EnumSerializer takes exactly the enums, reports the underlying type as the one subtype, and uses its primitive routines |
| Handlers.GenericSubtypesAreFieldTypes | NetSerializer/TypeSerializers/GenericSerializer.cs:29-35 | GenericSerializer's subtypes are the serialized fields' declared types, one per field, in field order |
| Handlers.NoOpSerializerRules | NetSerializer/TypeSerializers/NoOpSerializer.cs:33-62 | NoOpSerializer takes its listed types (and, when asked, their descendants), reports no subtypes, and is static with routines that take the serializer |
| Handlers.NullableSerializerRules | NetSerializer/TypeSerializers/NullableSerializer.cs:19-34 | NullableSerializer takes exactly the constructed Nullable<T>, reports bool and T, and generates its routines |
| Delegates.DelegateForwardsToRoutine | NetSerializer/Helpers.cs:78-187 | the factory succeeds exactly when the parameter type is the type itself or `object`; the delegate targets the routine, forwards the serializer exactly when the routine takes it, passes the value unconverted when the parameter type is the type itself, and converts it when the parameter is `object` and the type is a value type |
| Delegates.DirectExactlyWhenNoConversion | NetSerializer/Helpers.cs:93-100 | the routine is handed out unwrapped exactly when no conversion is needed and it takes the serializer; otherwise a trampoline is built |
| Routines.CallbackOpsShape | NetSerializer/TypeSerializers/GenericSerializer.cs:143-176 | the callback list calls exactly the hooks, and fails only for a value type with hooks while callbacks are enabled |
| Routines.GenericWriterOpsFails | NetSerializer/TypeSerializers/GenericSerializer.cs:37-73 | generating a writer fails, with NotImplementedException, exactly when callbacks are enabled and a value type has serialization hooks |
| Routines.GenericWriterRun | NetSerializer/TypeSerializers/GenericSerializer.cs:37-73 | the generated writer runs the hooks and emits each field's bytes back to back, in field order, and nothing else |
| Routines.ReaderStart | NetSerializer/TypeSerializers/GenericSerializer.cs:79-97 | allocation and OnDeserializing leave the empty instance and do not touch the stream |
| Routines.GenericReaderRun | NetSerializer/TypeSerializers/GenericSerializer.cs:75-128 | the generated reader fills the fields in order from the bytes the field writers left and stops right after them |
| Routines.GenericRoundTrip | NetSerializer/TypeSerializers/GenericSerializer.cs:37-128 | when every field's callee round-trips, the generated reader gives back what the generated writer wrote and stops right after those bytes |
| Routines.NullableWriterRun | NetSerializer/TypeSerializers/NullableSerializer.cs:36-68 | HasValue goes through bool's writer, then the value through T's callee only when present |
| Routines.NullableRoundTrip | NetSerializer/TypeSerializers/NullableSerializer.cs:70-112 | the nullable reader gives back the same nullable (null when it had no value) and stops after its bytes |
| Routines.NullableWire | NetSerializer/TypeSerializers/NullableSerializer.cs:47-67 | with the primitive bool routine, null is the single byte 0 and a present value is 1 followed by the value's bytes |
| Routines.PrimitiveRoutinesRoundTrip | NetSerializer/TypeSerializers/PrimitivesSerializer.cs:43-51 | the primitive routines of one type round-trip every well-formed value of that type |
| Routines.NoOpRoutines | NetSerializer/TypeSerializers/NoOpSerializer.cs:55-62 | the no-op routines write nothing and read null without moving the stream |
| Routines.EnumRoundTrip | NetSerializer/TypeSerializers/EnumSerializer.cs:30-46 | an enum goes over the wire as its underlying integer and round-trips |
| Descriptors.TypeData.NeedsInstanceOf | NetSerializer/TypeData.cs:39-61 | the routine takes the serializer exactly when it has three parameters; with no routine it is a NullReferenceException |
| Descriptors.TypeData.SetRoutine | NetSerializer/TypeData.cs:30-31 | assigns one direction's routine, with no body yet, and keeps every other slot |
| Descriptors.TypeData.SetBody | NetSerializer/Serializer.cs:468-483 | emits the body of one direction's dynamic stub and keeps every other slot |
| Descriptors.TypeData.SetTrampoline | NetSerializer/TypeData.cs:33-36 | caches one direction's object-typed delegate and keeps every other slot |
| Descriptors.TypeData.SetDirect | NetSerializer/TypeData.cs:33-37 | caches one direction's T-typed delegate and keeps every other slot |
| Generation.Indirect | NetSerializer/Serializer.cs:388-394 | the descriptor a call goes through is a registered one: the type's own or object's; KeyNotFoundException when neither applies |
| Generation.IndirectDirectly | NetSerializer/TypeData.cs:69-89 | a type is called directly exactly when it is registered and is a value type, an array, or sealed with a static handler; every other type goes through object's descriptor |
| Generation.CalleeOf | NetSerializer/TypeData.cs:39-61 | a body calls a registered routine; NullReferenceException when that descriptor has no routine yet |
| Generation.CalleesOfFields | NetSerializer/TypeSerializers/GenericSerializer.cs:45-66 | the field callees succeed exactly when every field's callee does, in field order; otherwise some field fails with that exception |
| Generation.BodyStep | NetSerializer/Serializer.cs:468-483 | a dynamic stub gets the body its handler generates; any other routine is left alone |
| Generation.BodyForRoutinesOnly | NetSerializer/Serializer.cs:485-499 | a body depends only on the other descriptors' routines, which is why the stub pass must finish before the body pass starts |
| Generation.StubbedConfined | NetSerializer/Serializer.cs:439-466 | the stub pass only fills empty routine slots of one direction |
| Generation.PassesCover | NetSerializer/Serializer.cs:485-499 | after both passes every collected type has a routine, every new dynamic stub has a body, and a type that had a routine keeps all its slots |
| Generation.GeneratedConfined | NetSerializer/Serializer.cs:485-499 | generation changes only the routine and body slots of one direction, and only for types that had no routine |
| Generation.ConfinedFaithful | NetSerializer/Serializer.cs:501-529 | routine generation keeps every cached delegate faithful to its routine |
| Generation.CacheKeepsFaithful | NetSerializer/Serializer.cs:501-529 | caching the factory's delegate for a routine keeps the caches faithful |
| TypeIds.NextPowOf2 | NetSerializer/TypeIDList.cs:58-68 | for 1 <= v <= 2^31 the result is the least power of two at least v; for 0 and above 2^31 the 32-bit wrap-around gives 0 |
| TypeIds.GrowSize | NetSerializer/TypeIDList.cs:33-50 | growth target NextPowOf2(idx + 1) is smaller than the array exactly when idx >= 2^31, and longer than Array.MaxLength exactly when 2^30 <= idx < 2^31; otherwise a larger power of two holding idx |
| TypeIds.TypeIdList.Get | NetSerializer/TypeIDList.cs:31 | the descriptor under idx, null for an empty slot, IndexOutOfRangeException beyond the array |
| TypeIds.TypeIdList.ContainsTypeId | NetSerializer/TypeIDList.cs:53-56 | true exactly when the id is bound |
| TypeIds.TypeIdList.Set | NetSerializer/TypeIDList.cs:33-50 | binds idx, growing the array to a power of two at most 2*idx+1 when needed; succeeds exactly when idx < 2^30; otherwise nothing changes, with OutOfMemoryException for 2^30 <= idx < 2^31 and ArgumentException from 2^31 on |
| TypeIds.TypeIdList.Grow | NetSerializer/TypeIDList.cs:37-47 | below 2^30 a new array holding idx, at most 2*idx+1 slots long, with every entry kept; otherwise the old array, with OutOfMemoryException below 2^31 and ArgumentException from 2^31 on |
| TypeIds.TypeIdList.ToSortedList | NetSerializer/TypeIDList.cs:70-88 | (id, type) for exactly the bound ids, in strictly ascending id order |
| TypeDict.Hash | NetSerializer/TypeDictionary.cs:128-133 | the bucket index is below the bucket count, and is the hash code modulo it for a non-negative code |
| TypeDict.AddToBucketShape | NetSerializer/TypeDictionary.cs:107-126 | the pair goes into the first empty slot, every other slot is kept, and the bucket doubles exactly when it was full |
| TypeDict.AddKeepsTable | NetSerializer/TypeDictionary.cs:107-126 | adding an absent key to a table of some contents gives a table of those contents plus the binding |
| TypeDict.Add | NetSerializer/TypeDictionary.cs:107-126 | the pair goes into bucket Hash(key), as the bucket rule says |
| TypeDict.Scan | NetSerializer/TypeDictionary.cs:42-53 | a bucket scan finds the descriptor of the first pair with the key |
| TypeDict.TypeDictionary.Get | NetSerializer/TypeDictionary.cs:37-54 | the key's descriptor; KeyNotFoundException exactly when the key is not stored |
| TypeDict.TypeDictionary.TryGetValue | NetSerializer/TypeDictionary.cs:85-105 | true and the descriptor exactly when stored, false and null otherwise |
| TypeDict.TypeDictionary.ContainsKey | NetSerializer/TypeDictionary.cs:80-83 | true exactly when the key is stored |
| TypeDict.TypeDictionary.Set | NetSerializer/TypeDictionary.cs:56-78 | the contents gain the binding and the item count rises by one; the bucket array doubles exactly when the load was at least one half |
| TypeDict.TypeDictionary.Resize | NetSerializer/TypeDictionary.cs:62-71 | twice the buckets, the same contents |
| TypeDict.Rehashed | NetSerializer/TypeDictionary.cs:62-71 | the rehash loop builds a table of twice the buckets storing the same contents |
| TypeDict.TypeDictionary.ToDictionary | NetSerializer/TypeDictionary.cs:135-156 | every stored descriptor's type is mapped to its type id, and nothing else |
| Registry.SelectionFails | NetSerializer/Serializer.cs:378-386 | handler selection over the universe fails only with NotSupportedException |
| Registry.ScreenCases | NetSerializer/Serializer.cs:184-209 | the per-entry checks of a type map: id 0 refused; a registered type accepted again only under its own id; a taken id refused; abstract types and interfaces refused; open generics not supported |
| Registry.StoreKeeps | NetSerializer/Serializer.cs:162-166 | storing a new descriptor keeps both stores' invariants; the list takes it only for an id below 2^30 |
| Registry.OwedNothing | NetSerializer/Serializer.cs:143-173 | once the stack is empty, every root and every subtype of a type this call registered is registered, abstract or an interface |
| Registry.GatheringDone | NetSerializer/Serializer.cs:414-437 | when Collect's stack is empty, the set built is what Collect returns |
| Registry.Serializer.AddEntry | NetSerializer/Serializer.cs:184-215 | one map entry is screened, then registered under its id, which succeeds exactly below 2^30; only ArgumentException, NotSupportedException, or OutOfMemoryException for an id from 2^30 on |
| Registry.Serializer.EnterEntries | NetSerializer/Serializer.cs:182-216 | on success every entry's type is registered under the entry's id, and no type outside the entries was added |
| Registry.Serializer.AddTypeMap | NetSerializer/Serializer.cs:178-217 | AddTypesInternal(typeMap): every entry registered under its id on success; old entries kept; OutOfMemoryException only when some entry's id is 2^30 or more |
| Registry.Serializer.TakeId | NetSerializer/Serializer.cs:157-160 | the id is the first one at or after the counter that the list does not hold; the counter moves past it, wrapping 0xFFFFFFFF to 0 |
| Registry.Serializer.Visit | NetSerializer/Serializer.cs:145-172 | one turn of the worklist keeps the registration and owed-work invariants and lowers the measure |
| Registry.Serializer.Drain | NetSerializer/Serializer.cs:143-173 | the worklist runs to an empty stack with both invariants |
| Registry.Serializer.AddRoots | NetSerializer/Serializer.cs:136-176 | AddTypesInternal(roots): each new type gets a fresh id below 2^30 from the counter; on success the roots and all reachable subtypes are registered (or abstract or interfaces) |
| Registry.Serializer.GetIndirectData | NetSerializer/Serializer.cs:388-394 | the type's own descriptor when it can be called directly, object's otherwise |
| Registry.Serializer.GetDirectRoutine | NetSerializer/Serializer.cs:396-404 | the routine slot of a registered type; KeyNotFoundException otherwise |
| Registry.Serializer.Collect | NetSerializer/Serializer.cs:407-437 | the least set holding the root and closed under subtypes, with abstract types and interfaces dropped; each member registered |
| Registry.Serializer.GenerateStub | NetSerializer/Serializer.cs:439-466 | the routine becomes the handler's static routine or a new dynamic stub; nothing else changes |
| Registry.Serializer.GenerateBody | NetSerializer/Serializer.cs:468-483 | exactly the body step: a dynamic stub gets its body |
| Registry.Serializer.StubPass | NetSerializer/Serializer.cs:492-495 | every type to do is stubbed, or an exception leaves the stubs made so far |
| Registry.Serializer.BodyPass | NetSerializer/Serializer.cs:497-498 | every stub gets its body against the stubbed slots, or an exception leaves the bodies made so far |
| Registry.Serializer.Generate | NetSerializer/Serializer.cs:485-499 | early return when the routine exists; KeyNotFoundException for an unregistered root; otherwise Collect, then the stub pass, then the body pass over the collected types without a routine, touching only those slots |
| Registry.Serializer.CachedDelegate | NetSerializer/Serializer.cs:501-529 | a cached delegate is returned as is; otherwise routines are generated and the factory's delegate for the routine is cached and returned |
| Registry.Serializer.Attach | NetSerializer/Serializer.cs:510-513 | the factory's delegate for the routine is cached in the empty slot |
| Registry.Serializer.TypeIdAndWriter | NetSerializer/Serializer.cs:348-363 | GetTypeIdAndSerializer: the type's id and its writer trampoline, cached after the first call; KeyNotFoundException for an unregistered type |
| Registry.Serializer.ReaderTrampolineFromId | NetSerializer/Serializer.cs:365-376 | the reader trampoline of the type with that id; IndexOutOfRangeException beyond the list and NullReferenceException for an empty slot |
| Registry.Serializer.ObjectIdOnly | NetSerializer/Serializer.cs:286-288 | id 1 belongs to `object` alone |
| Registry.Serializer.Start | NetSerializer/Serializer.cs:74-89 | ArgumentException when a custom handler is neither static nor dynamic; otherwise `object` alone is registered under id 1 |
| Registry.Serializer.Create | NetSerializer/Serializer.cs:74-96 | the roots constructor: a ready serializer in which every root is registered, abstract or an interface |
| Registry.Serializer.CreateWithMap | NetSerializer/Serializer.cs:112-134 | the map constructor: a ready serializer with every entry's type registered under the entry's id |
| Registry.Serializer.Finish | NetSerializer/Serializer.cs:93-95 | the routines of `object` are generated and the serializer is ready |

## Left out

- Reflection.Emit is not modelled as IL. The routines a dynamic handler generates are given as operation lists (Routines), and delegates as records of what they call (Delegates).
- Reflection is a finite map of TypeInfo values, a parameter of the serializer; `RuntimeHelpers.GetHashCode` is a parameter function to 32-bit integers.
- Locks and `Volatile.Read`/`Volatile.Write` are left out: the model is single-threaded.
- GetSha256 (Serializer.cs:257-279) is not modelled. It hashes the textual type list, and SHA-256 is out of scope.
- The GENERATE_DEBUGGING_ASSEMBLY block (Serializer.cs:624-722) is not modelled. It is a debugging build option that saves an assembly to disk.
- The public envelope is not modelled:
  - Serialize and Deserialize, which write and read the type id, then call the trampoline;
  - SerializeDirect and DeserializeDirect;
  - AddTypes and GetTypeMap;
  - SerializerCache, GenericSerializerCache and SerializerExtensions.
  
  Their lookups are modelled: TypeIdAndWriter, ReaderTrampolineFromId, CachedDelegate and ToDictionary.
- ObjectSerializer, ArraySerializer and DictionarySerializer are not part of this model. They are entries of the handler table whose Handles, GetSubtypes and routines are opaque (`Foreign` handlers).
- float, double and DateTime are modelled as their 32- or 64-bit patterns; floating-point arithmetic is left out.
- HashSet and Dictionary iteration order is not modelled. Collect returns a set, and AddTypeMap takes the map's entries as a sequence in whatever order the caller enumerates them.
- Registry.Serializer.Create: the roots must be types of the universe, because reflection is a finite map here.
- Utf8.Encode: a Dafny string holds Unicode scalar values only, so a lone UTF-16 surrogate cannot be written. The EncoderFallbackException that UTF8Encoding(false, true) throws for one (Primitives.cs:327-329) is therefore not modelled.
- Primitives.Encode: on Str values, the lone-surrogate EncoderFallbackException is not modelled, as for Utf8.Encode.
- PrimitiveIO.WriteString: the lone-surrogate EncoderFallbackException is not modelled, as for Utf8.Encode.
- Routines.CallbacksOf: GetAllMethods (used by GetMethodsWithAttributes, GenericSerializer.cs:130-141) is not part of this model. It is read as each level's declared methods, base type first.
- Registry.Serializer.Generate does not model what happens after a failed body pass. The failed pass leaves its stubs installed, so a later Generate returns early because a routine exists. The delegate built later is then attached to a bodiless stub, which DynamicMethod.CreateDelegate rejects with InvalidOperationException.
- Registry.Serializer.Attach always succeeds, for the same reason.
- PrimitiveIO.ReadByteArray: prefix 1 reads as an empty sequence. That the source returns the one shared EmptyByteArray instance is not modelled.
- TypeDict.TypeDictionary: each bucket is a sequence value stored in an array of buckets. The table is updated in place bucket by bucket, but a bucket's own slots are not, so aliasing of a bucket array is not modelled.
- TypeDict.TypeDictionary.Set: the float load test `_numItems >= _buckets.Length * 0.5f` is read as `2 * numItems >= buckets.Length`. This is exact while numItems is below 2^24, because bucket counts are powers of two.
- Running out of memory is not modelled. Only the fixed Array.MaxLength bound is: a string or byte[] longer than it, and a type id list that would need 2^31 slots, fail with OutOfMemoryException.
- PrimitiveIO.WriteString and PrimitiveIO.WriteByteArray require at most Array.MaxLength (0x7FFFFFC7) bytes. No .NET byte array is longer, and the length plus one is written as a uint.
