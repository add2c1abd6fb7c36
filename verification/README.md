# Replace random number generator: the context.xml rewrite

The PKI server's 10.0.1 upgrade step "Replace random number generator" rewrites
the Tomcat `context.xml` descriptor of a subsystem so that Tomcat's session
manager, and from version 10 on the SSL authenticator valve, draw their random
numbers from `Mozilla-JSS` / `pkcs11prng`. Below version 10 the step instead
removes the authenticator valve and the proxy realm.

This project models the in-memory part of that rewrite. It starts from the list
of direct children of the parsed `<Context>` root and ends with the list that
would be written back. It has two modules:

- `ElementTree` (`element_tree.dfy`) is the slice of lxml the step uses:
  - an element is a tag and an attribute map;
  - `get`, `set`, `find` and `findall` work one level below the root;
  - the properties of `findall` are proved as lemmas about one index at a time.
- `ReplaceRandomNumberGenerator` (`replace_random_number_generator.dfy`) is the upgrade step itself. It holds:
  - the fixed attribute names, values and class names;
  - one function per edit, stating what the edit produces from the children it is given, and the lemmas that state what each edit promises;
  - the class `Context`, which keeps the root's `children` as a mutable field. Each of its methods mirrors one Python method statement by statement, including the `findall` scan loops and `context.remove` inside them. Each method is proved to leave the children that the corresponding function describes.

An edit that raises in Python returns an error value here. `update_authenticator`
without an authenticator valve is such an edit: the model reports the error and
leaves the children unchanged. `upgrade_subsystem` then does not write the
edited document back (lines 68-69 are not reached). The comment at line 177
("Create new authenticator") and the parallel `add_manager` code at line 153,
which creates its element with `etree.SubElement(context, 'Manager')`, show that
the new valve was meant to be created under the root. The code does not do
that, and the model follows the code (see "Findings").

## Model

| member | source | states |
|---|---|---|
| ElementTree.Set | base/server/upgrade/10.0.1/01-ReplaceRandomNumberGenerator.py:156-157 | `set` keeps the tag, makes `get(key)` return the new value and leaves every other attribute as it was |
| ElementTree.Find | base/server/upgrade/10.0.1/01-ReplaceRandomNumberGenerator.py:148 | `find(tag)` answers the index of a child with that tag with none before it, or None exactly when no child has the tag |
| ElementTree.FindAllAt | base/server/upgrade/10.0.1/01-ReplaceRandomNumberGenerator.py:162 | every index `findall` lists is a child with the tag |
| ElementTree.FindAllComplete | base/server/upgrade/10.0.1/01-ReplaceRandomNumberGenerator.py:162 | every child with the tag is listed by `findall` |
| ElementTree.FindAllOrdered | base/server/upgrade/10.0.1/01-ReplaceRandomNumberGenerator.py:166 | `findall` lists the children in document order, so the loops visit them first to last |
| ElementTree.FindAfterUpdate | base/server/upgrade/10.0.1/01-ReplaceRandomNumberGenerator.py:148-157 | replacing a child by one with the same tag does not change what `find` answers for any tag |
| ReplaceRandomNumberGenerator.UseJssRandom | base/server/upgrade/10.0.1/01-ReplaceRandomNumberGenerator.py:156-157 | the two `set` calls keep the tag, make the element use Mozilla-JSS / pkcs11prng and leave every other attribute alone |
| ReplaceRandomNumberGenerator.UseJssRandomIdempotent | base/server/upgrade/10.0.1/01-ReplaceRandomNumberGenerator.py:183-184 | setting the two attributes a second time changes nothing |
| ReplaceRandomNumberGenerator.FirstMatch | base/server/upgrade/10.0.1/01-ReplaceRandomNumberGenerator.py:166-173 | the scan stops at a valve with the authenticator class name that has none before it, or finds none exactly when no child matches |
| ReplaceRandomNumberGenerator.ManagerAddedConfiguresFirst | base/server/upgrade/10.0.1/01-ReplaceRandomNumberGenerator.py:144-157 | after add_manager a `Manager` child exists and the first one uses the JSS generator |
| ReplaceRandomNumberGenerator.ManagerAddedKeepsExisting | base/server/upgrade/10.0.1/01-ReplaceRandomNumberGenerator.py:148-157 | with a `Manager` present the child count is kept, only the two attributes of the first `Manager` change and every other child is untouched |
| ReplaceRandomNumberGenerator.ManagerAddedAppends | base/server/upgrade/10.0.1/01-ReplaceRandomNumberGenerator.py:150-153 | with no `Manager`, exactly one configured `Manager` is appended after the unchanged children |
| ReplaceRandomNumberGenerator.ManagerAddedIdempotent | base/server/upgrade/10.0.1/01-ReplaceRandomNumberGenerator.py:144-157 | add_manager applied twice gives what it gives once |
| ReplaceRandomNumberGenerator.AuthenticatorUpdatedFirstOnly | base/server/upgrade/10.0.1/01-ReplaceRandomNumberGenerator.py:162-184 | with an authenticator valve, update_authenticator succeeds and adds no child; only the first such valve gets the two attributes, and later authenticator valves and all other children stay as they were |
| ReplaceRandomNumberGenerator.FirstMatchIs | base/server/upgrade/10.0.1/01-ReplaceRandomNumberGenerator.py:166-173 | the first matching child is the one the scan stops at |
| ReplaceRandomNumberGenerator.AuthenticatorUpdatedFails | base/server/upgrade/10.0.1/01-ReplaceRandomNumberGenerator.py:175-180 | update_authenticator fails, with the `SubElement(None, ...)` error, exactly when no valve carries the authenticator class name |
| ReplaceRandomNumberGenerator.EmptyContextUpgradeFails | base/server/upgrade/10.0.1/01-ReplaceRandomNumberGenerator.py:175-180 | a root with no children stops the version 10 upgrade, while the intended update would leave a configured `Manager` and a configured authenticator valve |
| ReplaceRandomNumberGenerator.AuthenticatorUpsertedConfigures | base/server/upgrade/10.0.1/01-ReplaceRandomNumberGenerator.py:175-184 | the intended update always leaves a first authenticator valve that uses the JSS generator |
| ReplaceRandomNumberGenerator.AuthenticatorUpsertedAgrees | base/server/upgrade/10.0.1/01-ReplaceRandomNumberGenerator.py:159-184 | wherever update_authenticator as written succeeds, the intended update gives the same children |
| ReplaceRandomNumberGenerator.AuthenticatorUpsertedAppends | base/server/upgrade/10.0.1/01-ReplaceRandomNumberGenerator.py:175-180 | with no authenticator valve, the intended update appends exactly one valve with the class name and the two attributes after the unchanged children |
| ReplaceRandomNumberGenerator.AuthenticatorUpsertedIdempotent | base/server/upgrade/10.0.1/01-ReplaceRandomNumberGenerator.py:159-184 | the intended update applied twice gives what it gives once, so it never creates a second valve |
| ReplaceRandomNumberGenerator.RemovedKeepsOrder | base/server/upgrade/10.0.1/01-ReplaceRandomNumberGenerator.py:186-195 | the removers keep the remaining children in their original relative order |
| ReplaceRandomNumberGenerator.RemovedCounts | base/server/upgrade/10.0.1/01-ReplaceRandomNumberGenerator.py:191-195 | every copy of a matching child is dropped and every copy of any other child is kept, including valves and realms with another or no `className` |
| ReplaceRandomNumberGenerator.RemovedMembers | base/server/upgrade/10.0.1/01-ReplaceRandomNumberGenerator.py:197-206 | every child left was a child before and is not a match |
| ReplaceRandomNumberGenerator.RemovedIdempotent | base/server/upgrade/10.0.1/01-ReplaceRandomNumberGenerator.py:197-206 | removing a second time changes nothing |
| ReplaceRandomNumberGenerator.RemovedNone | base/server/upgrade/10.0.1/01-ReplaceRandomNumberGenerator.py:189 | a list none of whose children has the searched tag is left unchanged |
| ReplaceRandomNumberGenerator.RemovedKeepsFind | base/server/upgrade/10.0.1/01-ReplaceRandomNumberGenerator.py:186-206 | removing valves or realms does not change which child `find` picks for another tag, such as `Manager` |
| ReplaceRandomNumberGenerator.ManagerAddedKeepsAuthenticators | base/server/upgrade/10.0.1/01-ReplaceRandomNumberGenerator.py:61-63 | add_manager neither adds nor removes an authenticator valve, so it cannot decide whether update_authenticator fails |
| ReplaceRandomNumberGenerator.UpgradedFails | base/server/upgrade/10.0.1/01-ReplaceRandomNumberGenerator.py:59-66 | upgrade_subsystem does not write the edited document back (lines 68-69 are not reached) exactly when the version is 10 or later and the descriptor has no authenticator valve |
| ReplaceRandomNumberGenerator.UpgradedEndState | base/server/upgrade/10.0.1/01-ReplaceRandomNumberGenerator.py:59-66 | what a successful upgrade writes: the first `Manager` uses the JSS generator; from version 10 on so does the first authenticator valve; below version 10 no authenticator valve and no proxy realm is left |
| ReplaceRandomNumberGenerator.Context.constructor | base/server/upgrade/10.0.1/01-ReplaceRandomNumberGenerator.py:59 | the root starts with the children of the parsed document |
| ReplaceRandomNumberGenerator.Context.AddManager | base/server/upgrade/10.0.1/01-ReplaceRandomNumberGenerator.py:144-157 | the children afterwards are `ManagerAdded` of the children before |
| ReplaceRandomNumberGenerator.Context.FindAuthenticator | base/server/upgrade/10.0.1/01-ReplaceRandomNumberGenerator.py:161-173 | the loop over the `findall('Valve')` snapshot stops at exactly the first authenticator valve, or finds none when there is none |
| ReplaceRandomNumberGenerator.Context.UpdateAuthenticator | base/server/upgrade/10.0.1/01-ReplaceRandomNumberGenerator.py:159-184 | on success the children become `AuthenticatorUpdated` of the children before; on failure it reports the error and changes nothing |
| ReplaceRandomNumberGenerator.Context.UpsertAuthenticator | base/server/upgrade/10.0.1/01-ReplaceRandomNumberGenerator.py:159-184 | the corrected update: the children become `AuthenticatorUpserted` of the children before |
| ReplaceRandomNumberGenerator.Context.RemoveAuthenticator | base/server/upgrade/10.0.1/01-ReplaceRandomNumberGenerator.py:186-195 | the children become the old children without the authenticator valves |
| ReplaceRandomNumberGenerator.Context.RemoveRealm | base/server/upgrade/10.0.1/01-ReplaceRandomNumberGenerator.py:197-206 | the children become the old children without the proxy realms |
| ReplaceRandomNumberGenerator.Context.RemoveMatching | base/server/upgrade/10.0.1/01-ReplaceRandomNumberGenerator.py:188-195 | removing each matching element of the `findall` snapshot, at its current index, leaves exactly `Removed` of the children before |
| ReplaceRandomNumberGenerator.Context.UpgradeSubsystem | base/server/upgrade/10.0.1/01-ReplaceRandomNumberGenerator.py:59-66 | returns `Upgraded` of the children before. On success the children are what is written. On failure add_manager's edit stays in memory and the edited document is not written back (lines 68-69 are not reached) |
| ReplaceRandomNumberGenerator.NoEarlierAuthenticator | base/server/upgrade/10.0.1/01-ReplaceRandomNumberGenerator.py:166-173 | when the scan stops at a valve, no earlier child is an authenticator valve |
| ReplaceRandomNumberGenerator.RemovedDrop | base/server/upgrade/10.0.1/01-ReplaceRandomNumberGenerator.py:195 | `context.remove` takes out the matching element at its current position, and what is left is the processed part with matches removed, followed by the rest |
| ReplaceRandomNumberGenerator.RemovedKeep | base/server/upgrade/10.0.1/01-ReplaceRandomNumberGenerator.py:192-194 | a valve or realm with another class name is skipped and stays in place |

## Left out

- Reading and writing the file: `etree.parse` with blank-text removal, `document.write` with pretty printing and UTF-8, and the `open` around them. The model starts from the root's list of children and ends at the list that would be written.
- `create_meta_inf` and `create_context_xml` (lines 128-142): directory and file creation, copying the template, `chown` and `chmod`. These are file system effects with no logic to state.
- `self.backup(...)` and the upgrade scriptlet base class: that framework is not part of this model.
- The `%`-formatted template paths (lines 37, 56, 92, 118) only name files.
- `update_root_context_xml` and `update_pki_context_xml` run only `add_manager` (lines 97 and 123) on their own files. That edit is `Context.AddManager`; their file handling is left out.
- What the upgrade framework does with the exception that stops `upgrade_subsystem` is not part of this model. The model returns it as an error value.
- Element identity: lxml elements are objects, and `context.remove(valve)` removes that object. The model identifies a child by its position. The removal loop therefore tracks where each snapshot element currently sits.
- Element content:
  - text, tail, nested children, namespaces, comments and processing instructions are not modelled;
  - an element is a tag and an attribute map;
  - attribute order, which lxml keeps when it writes, is not modelled.
- `base/tools/src/main/java/com/netscape/cmstools/tks/TKSKeyShowCLI.java` is a command-line client that makes a network call and prints the result. It is not part of this model.

## Findings

| source | as written | input that shows it | evidently intended | confidence | as-written member | corrected member |
|---|---|---|---|---|---|---|
| base/server/upgrade/10.0.1/01-ReplaceRandomNumberGenerator.py:178 | When no valve carries the authenticator class name, the new `Valve` is created with the still-`None` `authenticator` as its parent. lxml rejects that, so the version 10 upgrade stops and does not write the edited document back (lines 68-69 are not reached). | a `<Context>` root with no children (or with no authenticator valve), at version 10 | create the valve under the root (`context`), give it the class name, then set the two attributes | high (not executed) | ReplaceRandomNumberGenerator.EmptyContextUpgradeFails | ReplaceRandomNumberGenerator.AuthenticatorUpsertedConfigures |

The as-written behaviour is `AuthenticatorUpdated`. It is used by `Context.UpdateAuthenticator` and `Context.UpgradeSubsystem`, because that is what the step does today.

The corrected behaviour is `AuthenticatorUpserted`, implemented by `Context.UpsertAuthenticator`. Its lemmas prove that it:
- always leaves a configured authenticator valve;
- agrees with the code wherever the code succeeds;
- appends exactly one valve under the root otherwise;
- is idempotent.
