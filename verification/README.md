# App Engine facet merge rules and OAuth code receiver, in Dafny

This project models three small pieces of the App Engine tooling for Eclipse.

- **Facet installation** (`FacetInstall`, `facet_install.dfy`):
  - Installing the App Engine facet merges a catalog of App Engine Maven dependencies into a project's dependency list. A `null` or empty list is replaced by the whole catalog. Otherwise each catalog entry the list does not already contain is appended.
  - It also merges a catalog of POM properties into the project's properties, adding absent keys only. A `null` table is rejected with a `NullPointerException`.
  - For a plain Java project, it appends the App Engine SDK classpath container to the raw classpath, unless an equal entry is already there.
- **Facet uninstallation** (`FacetUninstall`, `facet_uninstall.dfy`): removing the facet filters the App Engine dependencies and property keys out of the POM. Its own source is not part of this model; only its unit tests are. The model is therefore a filter consistent with those tests, and its test lemmas restate the test assertions.
- **The authorization-code receiver** of the login flow (`CodeReceiver`, `code_receiver.dfy`):
  - The receiver is an immutable state: server created?, result consumed?, stored `error`, stored `code`.
  - `runLocalServer` is a function from a state to a `Reply`: the next state together with the URL or the exception. `waitForCode`, `shutdown` and `getAuthorizationCode` change no field, so each is a function from a state to its `Result` alone.
  - Guard failures are modelled as the `IllegalStateException`/`IllegalArgumentException` the operations throw.
  - The HTTP request handler is a transition on `(target, error, code)`. It also returns the redirect it sends.

Supporting modules:

- `Wrappers` and `Exceptions` (`common.dfy`): `Option` stands for a nullable reference. `Result` stands for "returns or throws".
- `MavenModel` (`maven_model.dfy`): `Dependency`, `Properties`, and the abstract matching rule that decides when a list "contains" a dependency.
- `Decimal` (`decimal.dfy`): renders the port number into the listening URL, with its inverse.

Parameters stand in for things this model does not see:

- The dependency catalog, the property catalog and the matching rule. They come from `MavenAppEngineFacetUtil`, which is not part of this model.
- The classifier of App Engine dependencies and keys used at uninstall.
- The SDK container entry. Its id lives in `AppEngineSdkClasspathContainer`, which is not part of this model.
- The port the embedded Jetty server listens on, or its failure to start.
- The outcome of stopping the server.

Two points where the model follows the code rather than the prose description:

- `waitForCode` is documented only as rejecting a zero timeout. A negative timeout also fails: the timed `Object.wait` it calls throws `IllegalArgumentException`, and only `InterruptedException` is caught. `WaitForCode` models both failures.
- The server object is assigned before it is started. A receiver whose start failed is therefore still "created": it refuses a second `runLocalServer`, yet `waitForCode` and `shutdown` accept it.

## Model

| member | source | states |
|---|---|---|
| FacetInstall.AppendMissing | plugins/com.google.cloud.tools.eclipse.appengine.facets/src/com/google/cloud/tools/eclipse/appengine/facets/FacetInstallDelegate.java:163-167 | the catalog loop keeps the list as a prefix, only appends catalog entries, grows by at most the catalog's size, never appends an entry that the list built so far (the input plus the entries appended before it) already matches, so a catalog entry repeated or matched by an earlier catalog entry is added only once, and leaves a list that already contains every catalog entry unchanged |
| FacetInstall.UpdateMavenProjectDependencies | plugins/com.google.cloud.tools.eclipse.appengine.facets/src/com/google/cloud/tools/eclipse/appengine/facets/FacetInstallDelegate.java:153-170 | null or empty input yields exactly the catalog; non-empty input is a prefix of the result in its order, with `|initial| <= |result| <= |initial| + |catalog|`; every added entry is taken from the catalog and is not matched by any entry before it in the result |
| FacetInstall.AppendMissingStep | plugins/com.google.cloud.tools.eclipse.appengine.facets/src/com/google/cloud/tools/eclipse/appengine/facets/FacetInstallDelegate.java:163-166 | one more catalog entry is appended to the loop's result exactly when the list built so far (the input plus everything appended before) contains no match for it; with the empty catalog leaving the list as it is, this fixes the result for every catalog, in catalog order |
| FacetInstall.UpdateStep | plugins/com.google.cloud.tools.eclipse.appengine.facets/src/com/google/cloud/tools/eclipse/appengine/facets/FacetInstallDelegate.java:163-167 | for a non-empty project list, extending the catalog by one entry appends that entry to the merged list exactly when the merged list does not already match it |
| FacetInstall.AppendMissingCoversCatalog | plugins/com.google.cloud.tools.eclipse.appengine.facets/src/com/google/cloud/tools/eclipse/appengine/facets/FacetInstallDelegate.java:163-167 | for a reflexive matching rule, after the loop every catalog dependency is matched by some entry of the list |
| FacetInstall.UpdateCoversCatalog | plugins/com.google.cloud.tools.eclipse.appengine.facets/src/com/google/cloud/tools/eclipse/appengine/facets/FacetInstallDelegate.java:155-169 | for a reflexive matching rule and any input (null, empty or not), every catalog dependency is matched in the result |
| FacetInstall.UpdateKeepsCompleteList | plugins/com.google.cloud.tools.eclipse.appengine.facets/src/com/google/cloud/tools/eclipse/appengine/facets/FacetInstallDelegate.java:163-169 | a non-empty list that already contains every catalog dependency is returned unchanged (no duplicates added) |
| FacetInstall.UpdateIdempotent | plugins/com.google.cloud.tools.eclipse.appengine.facets/src/com/google/cloud/tools/eclipse/appengine/facets/FacetInstallDelegate.java:153-170 | for a reflexive matching rule, merging the merged list again returns it unchanged |
| FacetInstall.UpdateAppendsExactlyMissing | plugins/com.google.cloud.tools.eclipse.appengine.facets/src/com/google/cloud/tools/eclipse/appengine/facets/FacetInstallDelegate.java:163-169 | when no catalog entry matches a later one, a non-empty list receives exactly the catalog entries it did not contain, in catalog order |
| FacetInstall.MergeProperties | plugins/com.google.cloud.tools.eclipse.appengine.facets/src/com/google/cloud/tools/eclipse/appengine/facets/FacetInstallDelegate.java:176-180 | the key set becomes the old keys together with the catalog keys; existing values are never overwritten; new keys get their catalog value |
| FacetInstall.MergePropertiesIsUnion | plugins/com.google.cloud.tools.eclipse.appengine.facets/src/com/google/cloud/tools/eclipse/appengine/facets/FacetInstallDelegate.java:176-180 | the merge equals the map union of catalog and project properties in which the project's values win |
| FacetInstall.MergePropertiesIdempotent | plugins/com.google.cloud.tools.eclipse.appengine.facets/src/com/google/cloud/tools/eclipse/appengine/facets/FacetInstallDelegate.java:176-180 | a second property merge changes nothing |
| FacetInstall.UpdatePomProperties | plugins/com.google.cloud.tools.eclipse.appengine.facets/src/com/google/cloud/tools/eclipse/appengine/facets/FacetInstallDelegate.java:173-181 | null properties throw `NullPointerException("project properties is null")`; otherwise the entry-by-entry loop yields all old and catalog keys, keeps every existing value, gives each added key its catalog value, and so agrees with `MergeProperties` |
| FacetInstall.AddAppEngineJarsToClasspath | plugins/com.google.cloud.tools.eclipse.appengine.facets/src/com/google/cloud/tools/eclipse/appengine/facets/FacetInstallDelegate.java:90-100 | the classpath is written back exactly when no equal container entry exists; the entries are then the old ones plus the container once at the end, and otherwise they are unchanged; the container is present afterwards |
| FacetUninstall.UpdateMavenProjectDependencies | plugins/com.google.cloud.tools.eclipse.appengine.facets.test/src/com/google/cloud/tools/eclipse/appengine/facets/FacetUninstallDelegateTest.java:12-50 | a dependency is in the result exactly when the input is non-null, holds it, and it is not an App Engine dependency; null gives the empty list |
| FacetUninstall.UpdatePomProperties | plugins/com.google.cloud.tools.eclipse.appengine.facets.test/src/com/google/cloud/tools/eclipse/appengine/facets/FacetUninstallDelegateTest.java:52-77 | the keys left are the old keys minus the App Engine keys, with their values unchanged |
| FacetUninstall.KeepsNonAppEngineDependency | plugins/com.google.cloud.tools.eclipse.appengine.facets.test/src/com/google/cloud/tools/eclipse/appengine/facets/FacetUninstallDelegateTest.java:12-25 | a list holding only a non-App Engine dependency still has size 1 |
| FacetUninstall.DropsApiStubs | plugins/com.google.cloud.tools.eclipse.appengine.facets.test/src/com/google/cloud/tools/eclipse/appengine/facets/FacetUninstallDelegateTest.java:27-40 | a list holding only `com.google.appengine:appengine-api-stubs` becomes empty |
| FacetUninstall.EmptyAndNullGiveEmpty | plugins/com.google.cloud.tools.eclipse.appengine.facets.test/src/com/google/cloud/tools/eclipse/appengine/facets/FacetUninstallDelegateTest.java:42-50 | both the empty list and null give the empty list |
| FacetUninstall.KeepsNonAppEngineProperty | plugins/com.google.cloud.tools.eclipse.appengine.facets.test/src/com/google/cloud/tools/eclipse/appengine/facets/FacetUninstallDelegateTest.java:52-60 | the non-App Engine key `a` is kept and the size stays 1 |
| FacetUninstall.DropsAppVersionProperty | plugins/com.google.cloud.tools.eclipse.appengine.facets.test/src/com/google/cloud/tools/eclipse/appengine/facets/FacetUninstallDelegateTest.java:62-69 | the App Engine key `app.version` is removed, leaving the properties empty |
| FacetUninstall.EmptyPropertiesStayEmpty | plugins/com.google.cloud.tools.eclipse.appengine.facets.test/src/com/google/cloud/tools/eclipse/appengine/facets/FacetUninstallDelegateTest.java:71-77 | empty properties stay empty |
| FacetUninstall.UninstallUndoesInstall | plugins/com.google.cloud.tools.eclipse.appengine.facets/src/com/google/cloud/tools/eclipse/appengine/facets/FacetInstallDelegate.java:153-170 | when every catalog entry is an App Engine dependency and the project had none, uninstalling after installing gives back the original list (null comes back empty); this relies on the model's assumption that removal keeps order and multiplicity |
| CodeReceiver.ListeningUrl | plugins/com.google.cloud.tools.eclipse.appengine.login/src/com/google/cloud/tools/eclipse/appengine/login/AuthorizationCodeReceiver.java:74 | the URL handed out has the form `http://127.0.0.1:<port>/code-reception-point`, with the port in shortest decimal form, and names exactly the listening port |
| Decimal.ParseNatToString | plugins/com.google.cloud.tools.eclipse.appengine.login/src/com/google/cloud/tools/eclipse/appengine/login/AuthorizationCodeReceiver.java:74 | the decimal rendering of the port reads back as the same number |
| Decimal.NatToStringOfParse | plugins/com.google.cloud.tools.eclipse.appengine.login/src/com/google/cloud/tools/eclipse/appengine/login/AuthorizationCodeReceiver.java:74 | a numeral in shortest form is the rendering of its own value, so each port has exactly one rendering |
| CodeReceiver.UrlNamingPortIsListeningUrl | plugins/com.google.cloud.tools.eclipse.appengine.login/src/com/google/cloud/tools/eclipse/appengine/login/AuthorizationCodeReceiver.java:74 | a URL that names a port is exactly the listening URL built for that port |
| CodeReceiver.RunLocalServer | plugins/com.google.cloud.tools.eclipse.appengine.login/src/com/google/cloud/tools/eclipse/appengine/login/AuthorizationCodeReceiver.java:63-78 | a receiver with a server is refused with `IllegalStateException` and left as it is; otherwise it becomes created, and the call returns the listening URL for the port exactly when the server started, and an `IOException` when it did not |
| CodeReceiver.WaitForCode | plugins/com.google.cloud.tools.eclipse.appengine.login/src/com/google/cloud/tools/eclipse/appengine/login/AuthorizationCodeReceiver.java:87-98 | a zero timeout is refused first, then a missing server, then a negative timeout with `IllegalArgumentException`; it answers exactly for a positive timeout on a created server, and the answer is the consumed flag |
| CodeReceiver.Shutdown | plugins/com.google.cloud.tools.eclipse.appengine.login/src/com/google/cloud/tools/eclipse/appengine/login/AuthorizationCodeReceiver.java:100-109 | it throws exactly when no server was created; a failure to stop is swallowed |
| CodeReceiver.GetAuthorizationCode | plugins/com.google.cloud.tools.eclipse.appengine.login/src/com/google/cloud/tools/eclipse/appengine/login/AuthorizationCodeReceiver.java:111-116 | it is refused without a server, then until a result was consumed; otherwise it returns the stored code |
| CodeReceiver.Handle | plugins/com.google.cloud.tools.eclipse.appengine.login/src/com/google/cloud/tools/eclipse/appengine/login/AuthorizationCodeReceiver.java:125-138 | any other target leaves the state unchanged and unhandled; the reception point sets the consumed flag and stores `error` and `code`; the redirect goes to the success page exactly when `error` is absent and to the failure page exactly when it is present |
| CodeReceiver.RunStoresLastReception | plugins/com.google.cloud.tools.eclipse.appengine.login/src/com/google/cloud/tools/eclipse/appengine/login/AuthorizationCodeReceiver.java:127-134 | over any run of calls and requests, the flag is set exactly when it was set before or a request reached the reception point; the stored `error`/`code` come from the last such request, since later requests overwrite; the server exists exactly when it did before or a start was attempted |
| CodeReceiver.ConsumedStaysConsumed | plugins/com.google.cloud.tools.eclipse.appengine.login/src/com/google/cloud/tools/eclipse/appengine/login/AuthorizationCodeReceiver.java:131 | nothing ever clears the consumed flag |
| CodeReceiver.AtMostOneSuccessfulStart | plugins/com.google.cloud.tools.eclipse.appengine.login/src/com/google/cloud/tools/eclipse/appengine/login/AuthorizationCodeReceiver.java:63-66 | the receiver is single use: over any run, at most one start succeeds, and none once a server exists |
| CodeReceiver.LoginFlow | plugins/com.google.cloud.tools.eclipse.appengine.login/src/com/google/cloud/tools/eclipse/appengine/login/AuthorizationCodeReceiver.java:80-116 | after a start and a redirect carrying a code, `waitForCode` answers true and `getAuthorizationCode` returns that code |

## Left out

- The contents of the App Engine dependency and property catalogs, and the rule `doesListContainDependency` uses. `MavenAppEngineFacetUtil` is not part of this model, so these are parameters. Properties that need the rule to be reflexive say so in their `requires`.
- The source of the uninstall delegate is not part of this model. The removal rules are filters consistent with its tests. The App Engine classifier is a parameter. The behaviour of property removal on a `null` table is unknown and not modelled.
- FacetUninstall.UpdateMavenProjectDependencies: the tests fix only sizes and emptiness for one-element and empty inputs. That the removal keeps the order and multiplicity of the kept entries is an assumption of the model, and `UninstallUndoesInstall` rests on it.
- `execute`, `addAppEngineJarsToMavenProject`, `createConfigFiles` and `refreshLocal`. They only do workspace and file I/O: POM read/write, folder and file creation, template rendering and `setRawClasspath`.
- The `Dependency` fields beyond group, artifact, version and scope (type, classifier, exclusions, optional). Java `Properties` keys and values that are not strings.
- FacetInstall.UpdatePomProperties: does not model the `NullPointerException` that `Properties.setProperty` would throw for a `null` catalog value. Catalog values here are plain strings.
- FacetInstall.AddAppEngineJarsToClasspath: classpath entries are an abstract type with equality. Building the container entry (access rules, the web-app dependency attribute, the exported flag) is not modelled.
- The Jetty server: construction, binding to 127.0.0.1, `start`, `stop`, `join`, ephemeral port allocation and the server thread. The port, or the failure to start, is an input.
- The `synchronized`/`wait` handshake in `waitForCode`. The model reads the flag after the wait, and the wait's duration is not modelled.
- `InterruptedException` is swallowed by `waitForCode`. That makes no difference to this model.
- CodeReceiver.Handle: the handler is one atomic step here. The source sets the consumed flag before it stores `error` and `code`, and other threads may read between those writes. That interleaving is not modelled.
- The logging calls, `setHandled` (modelled only as the `Redirect`/`NotHandled` outcome), and `flushBuffer`.
- The login UI (`LoginServiceUi`): dialogs, browser launch and the progress-monitor polling loop.
- The library registry test. `LibraryFactory` and `Library` are not part of this model.
