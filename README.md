# Spring-aware Vaadin servlet: UI provider model

This project models, in Dafny, the UI provider that vaadin4spring's `SpringAwareVaadinServlet`
adds to every new Vaadin session (`UIScopeAwareUIProvider`). Everything lives in the module
`SpringAwareVaadinServlet` in `SpringAwareVaadinServlet.dfy`. The provider has three jobs:

- **Path extraction.** `extractUIPathFromPathInfo` turns a request's path-info into a lookup
  key. It is modelled by the function `ExtractUIPath`. A Java `null` is `None`. The
  `StringIndexOutOfBoundsException` thrown by `substring(0, -1)` is the outcome
  `SubstringOutOfBounds`.
- **Path registry.** `detectUIs` scans the beans that carry the UI annotation. It maps each
  UI bean's declared path to its type and throws `IllegalStateException` on the first path that
  is already mapped. It is modelled by the method `UIScopeAwareUIProvider.DetectUIs`. That
  method updates the `pathToUIMap` field in a `for` loop. It is proved to agree with the
  accumulator function `DetectFrom`, and the lemmas state what that function computes.
  `getUIClass` is the class function `GetUIClass`: extraction composed with a map lookup.
  Construction of the provider, which throws whenever `detectUIs` throws, is `NewProvider`.
- **Scoped creation.** `createInstance` sets the `CurrentInstance` slot for the UI
  identifier, asks the application context for the bean, and clears the slot in a `finally`.
  The slot is the one field of the class `CurrentInstance`. `getBean` is a function parameter.
  That function sees the slot's value and either returns a bean or throws (`Thrown`).

The cut at the first `'!'` is `substring(0, indexOfBang - 1)`, which also drops the character
before the `'!'`. So `"/foo!x"` gives the key `"/fo"` rather than `"/foo"`, and `"/foo/!x"` gives
`"/foo"`. A path-info longer than one character and starting with `'!'` makes the call throw.
`ExtractBangAfterPathLosesCharacter`, `ExtractFragmentAfterSlashExample` and
`ExtractEarlyBangExamples` show these cases.

## Model

| member | source | states |
|---|---|---|
| `SpringAwareVaadinServlet.IndexOf` | spring-vaadin/src/main/java/org/vaadin/spring/internal/SpringAwareVaadinServlet.java:98 | the result is -1 exactly when the character is absent, and otherwise it is the index of its first occurrence |
| `SpringAwareVaadinServlet.ExtractUIPath` | spring-vaadin/src/main/java/org/vaadin/spring/internal/SpringAwareVaadinServlet.java:95-109 | null or length ≤ 1 gives ""; the substring call fails exactly when the path-info is longer than one character and starts with '!'; a successful result is a prefix of the path-info, no longer than it, and holds no '!' |
| `SpringAwareVaadinServlet.ExtractKeepsPlainPath` | spring-vaadin/src/main/java/org/vaadin/spring/internal/SpringAwareVaadinServlet.java:96-106 | a path-info longer than one character, with no '!' and no trailing '/', is returned unchanged |
| `SpringAwareVaadinServlet.ExtractDropsOneTrailingSlash` | spring-vaadin/src/main/java/org/vaadin/spring/internal/SpringAwareVaadinServlet.java:103-105 | without a '!', exactly one trailing '/' is removed |
| `SpringAwareVaadinServlet.ExtractCutsBeforeBang` | spring-vaadin/src/main/java/org/vaadin/spring/internal/SpringAwareVaadinServlet.java:98-105 | when the first '!' is at index i > 0, the key is the prefix of length i − 1, less one trailing '/' |
| `SpringAwareVaadinServlet.ExtractSlashExamples` | spring-vaadin/src/main/java/org/vaadin/spring/internal/SpringAwareVaadinServlet.java:96-108 | null and "/" give ""; "/foo" and "/foo/" give "/foo"; "/foo//" gives "/foo/" (only one '/' is removed) |
| `SpringAwareVaadinServlet.ExtractFragmentAfterSlashExample` | spring-vaadin/src/main/java/org/vaadin/spring/internal/SpringAwareVaadinServlet.java:98-105 | "/foo/!x" gives "/foo" |
| `SpringAwareVaadinServlet.ExtractEarlyBangExamples` | spring-vaadin/src/main/java/org/vaadin/spring/internal/SpringAwareVaadinServlet.java:98-101 | "/!x" gives ""; "!x" makes the substring call fail |
| `SpringAwareVaadinServlet.ExtractBangAfterPathLosesCharacter` | spring-vaadin/src/main/java/org/vaadin/spring/internal/SpringAwareVaadinServlet.java:98-101 | "/foo!x" gives "/fo", which is not the key of "/foo" |
| `SpringAwareVaadinServlet.UIBeans` | spring-vaadin/src/main/java/org/vaadin/spring/internal/SpringAwareVaadinServlet.java:71-73 | the filtered list holds exactly the beans whose type is assignable to UI, and is no longer than the input |
| `SpringAwareVaadinServlet.DetectFrom` | spring-vaadin/src/main/java/org/vaadin/spring/internal/SpringAwareVaadinServlet.java:71-83 | the scan keeps every entry of the map it starts from and never overwrites one; when it stops, the reported path is a key and the reported type is that key's entry |
| `SpringAwareVaadinServlet.DetectSkipsNonUI` | spring-vaadin/src/main/java/org/vaadin/spring/internal/SpringAwareVaadinServlet.java:72-73 | beans that are not UIs change neither the map nor the outcome |
| `SpringAwareVaadinServlet.DetectSucceedsIff` | spring-vaadin/src/main/java/org/vaadin/spring/internal/SpringAwareVaadinServlet.java:76-81 | over UI beans, the scan completes if and only if their paths are pairwise distinct and none is already a key; types play no part |
| `SpringAwareVaadinServlet.DetectContents` | spring-vaadin/src/main/java/org/vaadin/spring/internal/SpringAwareVaadinServlet.java:76-81 | a completed scan maps every UI bean's path to its type, adds no other key, and grows the map by exactly the number of beans |
| `SpringAwareVaadinServlet.DetectStopsAtDuplicate` | spring-vaadin/src/main/java/org/vaadin/spring/internal/SpringAwareVaadinServlet.java:76-79 | a scan that throws does so at some bean j; the scan of the beans before j completes with the map left behind, and bean j's path maps, unchanged, to the reported type |
| `SpringAwareVaadinServlet.CompletedScanFromEmpty` | spring-vaadin/src/main/java/org/vaadin/spring/internal/SpringAwareVaadinServlet.java:71-83 | a completed scan from the empty map has distinct paths, its keys are exactly those paths, and each key maps to its bean's type |
| `SpringAwareVaadinServlet.ScanFromEmptyStops` | spring-vaadin/src/main/java/org/vaadin/spring/internal/SpringAwareVaadinServlet.java:76-79 | a scan of UI beans from the empty map that throws at bean j has an earlier bean i with the same path, and i's type is the one reported; the map's keys are exactly the distinct paths of the beans before j, each mapped to its bean's type |
| `SpringAwareVaadinServlet.DetectUIsCompletesIff` | spring-vaadin/src/main/java/org/vaadin/spring/internal/SpringAwareVaadinServlet.java:68-87 | detectUIs completes if and only if the UI beans' declared paths are pairwise distinct |
| `SpringAwareVaadinServlet.DetectUIsContents` | spring-vaadin/src/main/java/org/vaadin/spring/internal/SpringAwareVaadinServlet.java:71-83 | after detectUIs completes, every UI bean's path maps to its type, every key is some UI bean's path, and the map has as many entries as there are UI beans |
| `SpringAwareVaadinServlet.DetectUIsThrows` | spring-vaadin/src/main/java/org/vaadin/spring/internal/SpringAwareVaadinServlet.java:71-79 | when detectUIs throws, two UI beans i < j share the reported path, the reported type is bean i's, and the map holds exactly the entries of the UI beans before j: their paths as keys, each mapped to its bean's type |
| `SpringAwareVaadinServlet.ScanMeetsDuplicate` | spring-vaadin/src/main/java/org/vaadin/spring/internal/SpringAwareVaadinServlet.java:76-79 | the scan throws on reaching a UI bean whose path is already a key of the starting map, or is the path of an earlier UI bean |
| `SpringAwareVaadinServlet.DuplicatePathIsFatal` | spring-vaadin/src/main/java/org/vaadin/spring/internal/SpringAwareVaadinServlet.java:76-79 | any two UI beans at positions i < j of the bean list that declare the same path make detectUIs throw, even when their types are equal |
| `SpringAwareVaadinServlet.NoUIBeansGivesEmptyRegistry` | spring-vaadin/src/main/java/org/vaadin/spring/internal/SpringAwareVaadinServlet.java:84-86 | with no UI bean, detectUIs completes with an empty map and does not throw |
| `SpringAwareVaadinServlet.UIScopeAwareUIProvider.constructor` | spring-vaadin/src/main/java/org/vaadin/spring/internal/SpringAwareVaadinServlet.java:61 | a new provider's registry is empty |
| `SpringAwareVaadinServlet.UIScopeAwareUIProvider.DetectUIs` | spring-vaadin/src/main/java/org/vaadin/spring/internal/SpringAwareVaadinServlet.java:68-87 | the field and the outcome after the loop, including the map left behind when it throws, equal `DetectFrom` of the field before it; the empty-registry warning is logged exactly when the scan completes with an empty map |
| `SpringAwareVaadinServlet.NewProvider` | spring-vaadin/src/main/java/org/vaadin/spring/internal/SpringAwareVaadinServlet.java:63-66 | construction succeeds exactly when detectUIs completes from the empty map, and the new provider then holds that scan's map |
| `SpringAwareVaadinServlet.UIScopeAwareUIProvider.GetUIClass` | spring-vaadin/src/main/java/org/vaadin/spring/internal/SpringAwareVaadinServlet.java:90-93 | the extraction composed with the map lookup: the lookup fails exactly when the extraction fails, whatever it finds is a registered type, and an empty registry finds nothing; the `GetUIClass` lemmas below state the rest |
| `SpringAwareVaadinServlet.GetUIClassFindsRegisteredPath` | spring-vaadin/src/main/java/org/vaadin/spring/internal/SpringAwareVaadinServlet.java:90-106 | a registered key longer than one character, with no '!' and no trailing '/', resolves to its type, with or without one appended '/' |
| `SpringAwareVaadinServlet.GetUIClassRoot` | spring-vaadin/src/main/java/org/vaadin/spring/internal/SpringAwareVaadinServlet.java:90-108 | null, "" and "/" are interchangeable and resolve to the entry for "", or to null when there is none |
| `SpringAwareVaadinServlet.GetUIClassFindsOnlyKeysWithoutBang` | spring-vaadin/src/main/java/org/vaadin/spring/internal/SpringAwareVaadinServlet.java:90-101 | whatever getUIClass returns is the entry of a registered key without '!', so a path declared with a '!' is unreachable |
| `SpringAwareVaadinServlet.GetUIClassReachesKeysWithoutBang` | spring-vaadin/src/main/java/org/vaadin/spring/internal/SpringAwareVaadinServlet.java:90-106 | every registered key without '!' is found for some path-info (null for "", the key with one '/' appended otherwise); with the previous row, a key is reachable if and only if it has no '!' |
| `SpringAwareVaadinServlet.GetUIClassEmptyRegistry` | spring-vaadin/src/main/java/org/vaadin/spring/internal/SpringAwareVaadinServlet.java:84-93 | with an empty registry getUIClass never finds a class; it fails only when the extraction fails |
| `SpringAwareVaadinServlet.GetUIClassAfterDetect` | spring-vaadin/src/main/java/org/vaadin/spring/internal/SpringAwareVaadinServlet.java:71-93 | after detectUIs completes, every UI bean with a path longer than one character, with no '!' and no trailing '/', is found under that path |
| `SpringAwareVaadinServlet.CurrentInstance.Set` | spring-vaadin/src/main/java/org/vaadin/spring/internal/SpringAwareVaadinServlet.java:115-120 | the slot holds exactly the value set |
| `SpringAwareVaadinServlet.UIScopeAwareUIProvider.CreateInstance` | spring-vaadin/src/main/java/org/vaadin/spring/internal/SpringAwareVaadinServlet.java:111-122 | the result is what getBean gives for the event's UI class while the slot holds the event's identifier; whether getBean returns or throws, the slot is null afterwards, and its earlier value is not restored |

## Left out

- `ExtractUIPath`, `IndexOf`: the model counts Unicode code points, where Java's `length()`,
  `indexOf` and `substring` count UTF-16 code units. The two differ only when a supplementary
  character (outside the Basic Multilingual Plane) is the whole path-info or stands just before
  the first '!'.
- `servletInitialized` and the session-init listener are servlet and Vaadin lifecycle
  plumbing (lines 42-51). `NewProvider` stands for the `new UIScopeAwareUIProvider(...)` they perform.
- Spring lookups are not modelled: `getBeanNamesForAnnotation`, `getType`, the `isAssignableFrom`
  test and the annotation's `path()`. Each bean is a record of its name, type, UI-ness and
  declared path, in the order the context lists them. A `getType` that returns null, and a type
  whose annotation cannot be read, are not modelled.
- `getBean` is a pure function of the UI class and the slot's value. Side effects inside the
  container, such as scope caches, are not modelled.
- `VaadinUIIdentifier` is not part of this model. The identifier is an opaque wrapper around the
  creation event. The event carries only its UI class and an id.
- `ConcurrentHashMap`'s thread safety and `CurrentInstance`'s thread-local storage are
  concurrency concerns. They become a plain `map` field and a single mutable slot, and the slot
  holds only the entry keyed by the identifier class.
- Logging is left out because it has no observable effect. The one exception is the warning
  for an empty registry, which `DetectUIs` reports as a flag.
- `getUIClass` takes the path-info directly. The event and request objects that carry it are
  left out.

