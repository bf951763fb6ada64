# Namespaced storage layer of the Excalidraw storage backend

This project models the storage layer of the whiteboard backend in Dafny. The
repository implements that layer twice, each time as a class called
`StorageService`:

- **Filesystem store** (`excalidraw-storage-backend/src/storage/storage.service.ts`):
  each namespace is a directory under a fixed base directory, and each entry
  is a file of raw bytes. The constructor makes sure a directory exists for
  every namespace. `saveFile` overwrites a file, `getFile` reads one,
  `listFiles` lists the `.png` files of a namespace, and `deleteFile` unlinks
  one. Every operation catches its errors and returns `false`, `null` or
  `[]` instead.
- **Keyv store** (`src/storage/storage.service.ts`): `storagesMap` holds one
  Keyv instance, backed by SQLite, for each namespace. `set` and `get` return
  `false` / `null` when the namespace is not registered or the call fails.
  Both use the `DEFAULT` namespace when none is given. `getKeys` collects the
  keys of a namespace by iterating its Keyv and pushing each key onto an
  array.

Files:

- `storage_types.dfy`, module `StorageTypes`. It holds the parts both stores
  share:
  - the `Namespace` datatype, holding every member that either enum names,
    and `Name`, its string value. The store is keyed by `Namespace` itself;
    `NameInjective` records why that is sound (distinct namespaces have
    distinct directory names and Keyv prefixes);
  - bytes, as `byte`;
  - the abstract store `Tree<X> = map<Namespace, map<string, X>>` and the
    operations on it: `Lookup`, `Put`, `Remove` and `KeysOf`.
- `fs_storage.dfy`, module `FsStorage`: the filesystem service as a class
  whose field `dirs` is the tree of namespace directories and whose field
  `looseFiles` holds regular files that sit directly in the base directory
  under a namespace's name. `ReadDir` is a loop that models `readdirSync`:
  each name of a directory exactly once, in an unspecified order.
- `keyv_storage.dfy`, module `KeyvStorage`: the Keyv service as a generic
  class whose field `storagesMap` maps each registered namespace to its
  entries.

Which namespaces a service registers is a constructor argument (the value of
`Object.values(StorageNamespace)`), so every contract holds for any
registered set. Each module also defines `DeclaredNamespaces`, the set its
source file declares. The filesystem file declares `[SCENES]`. The Keyv file
declares the enum twice, once with `DEFAULT` and once with `SCENES`, `ROOMS`
and `FILES`. TypeScript merges the two declarations into one object, so that
service registers all four.

Environment inputs are parameters:

- the state of the disk or database before the service starts (`disk` and
  `loose`, `db`);
- whether a filesystem or database call fails (`ioError`).

A failed call leaves the state unchanged and returns the source's soft
failure value.

Where the code and a plain reading of the storage contract differ, the
model follows the code:

- A Keyv `get` of a missing key in a registered namespace gives `undefined`
  (what `keyv.get` yields), not `null`. The model keeps the two apart as
  `Reply.Undefined` and `Reply.Null`.
- The two stores do not offer the same operations. Only the filesystem store
  can delete. Only its listing filters by suffix. An unregistered namespace
  is a soft failure in the Keyv store, not a programming error.
- The filesystem store handles the names `""`, `"."` and `".."` implicitly.
  `path.join` resolves `""` and `"."` to the namespace path itself, and
  `".."` to the base directory. When the namespace directory exists, each of
  them names a directory. Writing, reading or unlinking a directory throws,
  and the service catches the error. So `saveFile` gives `false`, `getFile`
  gives `null` and `deleteFile` gives `false`.
- When the namespace directory does not exist, `saveFile(ns, "")` and
  `saveFile(ns, ".")` create (or overwrite) a regular file named after the
  namespace in the base directory, and return `true`. `getFile` and
  `deleteFile` with those names then read and unlink that file. Such a file
  also stops the constructor from creating the namespace directory, because
  `existsSync` reports the path as present. `listFiles` on it gives `[]`,
  since reading a regular file as a directory throws. The model keeps these
  files in `looseFiles`. `Writable` says when a write succeeds, and `Read`
  says what a read of a path yields.
- Node's `fs` rejects a path holding a NUL character. `writeFileSync`
  throws, so `saveFile` gives `false`. `existsSync` gives `false`, so
  `getFile` gives `null` and `deleteFile` gives `false`. No stored name holds
  a NUL character (`PlainName`).
- The model states these cases through `DenotesDirectory`,
  `DenotesNamespacePath`, `Writable` and the invariant `Valid()` (every
  stored name is a plain name, and no namespace is both a directory and a
  loose file).

## Model

| member | source | states |
|---|---|---|
| `StorageTypes.NameInjective` | excalidraw-storage-backend/src/storage/storage.service.ts:19-20 | distinct namespaces have distinct string values, so their directories and Keyv prefixes are distinct |
| `StorageTypes.Put` | excalidraw-storage-backend/src/storage/storage.service.ts:37-38 | after a write, the key reads back as the written value; every other key of every namespace keeps its value; no namespace appears or disappears |
| `StorageTypes.Remove` | excalidraw-storage-backend/src/storage/storage.service.ts:94-96 | after a removal, the key reads as absent; every other key of every namespace keeps its value |
| `StorageTypes.PutOverwrites` | excalidraw-storage-backend/src/storage/storage.service.ts:37-38 | a second write to the same name gives the same store as writing only the second value |
| `StorageTypes.RemoveAbsent` | excalidraw-storage-backend/src/storage/storage.service.ts:95-100 | removing an absent key leaves the store exactly as it was |
| `StorageTypes.RemoveAfterPut` | excalidraw-storage-backend/src/storage/storage.service.ts:94-96 | deleting a file just saved gives the same store as deleting it from the store before the save |
| `StorageTypes.KeysAfterPut` | src/storage/storage.service.ts:72-77 | after a write, the namespace's key set gains exactly the written key; other namespaces' key sets are unchanged |
| `StorageTypes.KeysAfterRemove` | excalidraw-storage-backend/src/storage/storage.service.ts:94-96 | after a removal, the namespace's key set loses exactly that key; other namespaces' key sets are unchanged |
| `FsStorage.ReadDir` | excalidraw-storage-backend/src/storage/storage.service.ts:77 | the directory read yields each file name of the directory exactly once and nothing else |
| `FsStorage.PngFiles` | excalidraw-storage-backend/src/storage/storage.service.ts:77 | the filter keeps exactly the names ending in `.png`; it adds no duplicates |
| `FsStorage.PngNamesAfterPut` | excalidraw-storage-backend/src/storage/storage.service.ts:37-38 | saving a `.png` file adds exactly that name to its namespace's listing; saving any other name, or into another namespace, leaves the listing unchanged |
| `FsStorage.PngNamesAfterRemove` | excalidraw-storage-backend/src/storage/storage.service.ts:94-96 | deleting a file removes exactly that name from its namespace's listing; other namespaces are unchanged |
| `FsStorage.StorageService.constructor` | excalidraw-storage-backend/src/storage/storage.service.ts:18-26 | afterwards a directory exists for every given namespace, except where a loose file of that name stands, and no other new one; an existing directory keeps its files; a created one is empty; loose files are unchanged |
| `FsStorage.StorageService.SaveFile` | excalidraw-storage-backend/src/storage/storage.service.ts:31-45 | true exactly when no I/O error occurs, the name has no NUL character, and either the namespace directory exists and the name denotes a file in it, or the directory is missing and the name resolves to the namespace path (creating a loose file); then exactly that file holds the data and reads back as it; on false nothing changes |
| `FsStorage.StorageService.GetFile` | excalidraw-storage-backend/src/storage/storage.service.ts:50-66 | the bytes of the file the path names (a file in the namespace directory, or a loose file for `""`/`"."`); null when there is none, when the name denotes a directory, or on an I/O error; the store is not modified |
| `FsStorage.StorageService.ListFiles` | excalidraw-storage-backend/src/storage/storage.service.ts:71-84 | exactly the `.png` files of the namespace, each once; `[]` when the directory is missing, is a loose file, or cannot be read |
| `FsStorage.StorageService.DeleteFile` | excalidraw-storage-backend/src/storage/storage.service.ts:89-107 | true exactly when the file the path names existed and no I/O error occurred; then only that file is gone and reads as null; on false nothing changes |
| `FsStorage.Startup` | excalidraw-storage-backend/src/storage/storage.service.ts:5-25 | constructing with the file's own enum values leaves a SCENES directory exactly when no loose SCENES file is in the way, and its existing files are kept |
| `FsStorage.SaveTwiceThenGet` | excalidraw-storage-backend/src/storage/storage.service.ts:37-59 | two saves of one name succeed or fail together, as `Writable` says; after success a read gives the second data; after failure the read gives what it gave before and nothing changes |
| `FsStorage.DeleteTwice` | excalidraw-storage-backend/src/storage/storage.service.ts:94-100 | deleting twice gives "existed" then false, and a later read gives null |
| `KeyvStorage.StorageService.constructor` | src/storage/storage.service.ts:15-32 | exactly the given namespaces are registered, each over the entries the database holds for it |
| `KeyvStorage.StorageService.Set` | src/storage/storage.service.ts:34-49 | true exactly when the namespace is registered and no error occurs; then only that key of that namespace changes; on false nothing changes |
| `KeyvStorage.StorageService.Get` | src/storage/storage.service.ts:51-66 | the stored value; undefined for a key the namespace does not hold; null for an unregistered namespace or a failed read |
| `KeyvStorage.StorageService.GetKeys` | src/storage/storage.service.ts:68-78 | every key of the namespace exactly once, and nothing else, as many as the namespace holds; `[]` for an unregistered namespace |
| `KeyvStorage.DefaultRoundTrip` | src/storage/storage.service.ts:34-61 | with the declared enum registered, `set` and `get` without a namespace act on DEFAULT; what was set is read back and listed by `getKeys` |
| `KeyvStorage.SetIsolated` | src/storage/storage.service.ts:18-44 | a set in one namespace leaves every read in every other namespace as it was |
| `KeyvStorage.Unregistered` | src/storage/storage.service.ts:36-70 | on an unregistered namespace `set` is false and changes nothing, `get` is null, and `getKeys` is `[]` |

## Left out

- The scene controller (`excalidraw-storage-backend/src/scenes/scenes.controller.ts`) is not part of this model. Its live code is HTTP handling, multipart upload, `JSON.parse` of form fields, `nanoid` randomness, direct file writes and canvas rendering, and it does not call either storage service. So identifier minting, collision checks, data/metadata pairing and archive export do not exist in the modelled code.
- `app.module.ts` and `main.ts` are framework wiring and process bootstrap, with no storage logic.
- The physical media are abstracted to maps: the directory tree and the SQLite table are both `Tree`. One consequence: Keyv's key prefixing inside the shared table, its iterator's namespace filter, TTL expiry and the `STORAGE_URI` setting are not modelled.
- JSON `serialize`/`deserialize` in the Keyv store is not modelled. Values are of an abstract type and assumed to survive `JSON.stringify` followed by `JSON.parse` unchanged.
- Logging, the `async`/`Promise` plumbing and the `keyv.on('error')` handler are left out. The calls are modelled as sequential.
- Failure causes are not modelled. A failure is the `ioError` input, and a failed call leaves the state unchanged, though a real `writeFileSync` that fails midway can leave a truncated file.
- `KeyvStorage.StorageService.GetKeys`: the method has no `try`/`catch`, so a failing iterator rejects the promise. The model has no failure input for it.
- `FsStorage.StorageService.constructor`: a failing `mkdirSync`, which aborts construction, is not modelled. The creation of the base directory itself is not modelled either.
- `FsStorage.StorageService.SaveFile`, `GetFile` and `DeleteFile` require a file name without `/`. `path.join` normalisation of multi-segment names (for example, `../` leaving the namespace directory) is not modelled.
- Of the base directory, only the namespace directories and the loose files named after a namespace are modelled; its other entries cannot affect the service.
- Subdirectories and other non-regular entries inside a namespace directory are not modelled. Changes to the disk by other processes between calls are not modelled either.
- The order of `readdirSync` and of the Keyv iterator is unspecified in the model. The listing contracts state membership and absence of duplicates, not order.
