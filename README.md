# Batch user loader and ordered `users` query

This project models the two pieces of logic that the demo GraphQL server in
`src/main.rs` implements itself, around the batching `DataLoader` it takes
from the `async_graphql` library:

- `UserLoader::load`, the batch-fetch function behind the loader. It takes
  the keys of one batch (`i32` user ids) and fills a map, in a loop, with one
  `User { id, name: "User <id>" }` per key. A repeated key simply overwrites
  its entry with an equal user. It never fails.
- the reordering loop of the `users(ids)` query field. The loader's
  `load_many` returns a key-to-user map with no order; the loop walks the
  requested ids in input order, duplicates included, and pushes the user
  found under each id, or nothing.

Modules:

- `Wrappers` (`wrappers.dfy`): `Option` and `Result`.
- `Decimal` (`decimal.dfy`): how `format!("{}", n)` renders an integer, with
  a parser beside it and the proof that the rendering is undone by parsing.
- `UserLoader` (`user_loader.dfy`): `i32`, `User`, the error type, the
  specification `LoadedUsers(keys)` of a batch fetch, the method `Load` that
  builds it with a loop, and lemmas about the loaded map.
- `Query` (`query.dfy`): the specification `InInputOrder(ids, map)` of the
  ordered answer, the method `Users` that builds it with a loop, and lemmas
  about order, duplicates and loading followed by reordering.

`load_many` belongs to the library and is not part of this model. `Users`
takes the map it returns as an input; `LoadThenReorder` states what happens
when that map is the one `Load` builds from a key list covering the ids.

## Model

| member | source | states |
|---|---|---|
| `Decimal.Digits` | src/main.rs:37 | the decimal digits of a natural number are at least one character, all digits, and start with '0' exactly when the number is zero |
| `Decimal.Render` | src/main.rs:37 | the rendering of an integer is non-empty, starts with '-' exactly for negatives, and is digits after that sign |
| `Decimal.DigitsRoundTrip` | src/main.rs:37 | reading the digits of n back as a number gives n |
| `Decimal.RenderRoundTrip` | src/main.rs:37 | every rendering is a well-formed decimal string that parses back to the integer rendered |
| `Decimal.RenderInjective` | src/main.rs:37 | two integers have the same rendering exactly when they are equal |
| `UserLoader.Load` | src/main.rs:25-42 | always returns `Ok`; its map holds exactly the requested keys, each key k mapped to a user with id k and name "User " followed by k in decimal; it has at most as many entries as keys; it equals `LoadedUsers(keys)` |
| `UserLoader.ElemsCount` | src/main.rs:31-39 | a key list of length n has at most n distinct keys, and exactly n exactly when no key repeats |
| `UserLoader.LoadedUsersSize` | src/main.rs:30-40 | duplicate keys collapse: the loaded map has one entry per distinct key, at most as many as keys, and as many exactly when no key repeats |
| `UserLoader.NameDeterminesId` | src/main.rs:35-38 | a loaded user's name is "User " followed by a decimal string that parses back to the user's id |
| `UserLoader.NamesDistinct` | src/main.rs:37 | two loaded users have the same name exactly when they have the same id |
| `Query.Users` | src/main.rs:64-70 | one answer per requested id, duplicates included; answer i is present exactly when ids[i] is in the map, and then is the map's user for ids[i]; the whole equals `InInputOrder(ids, map)` |
| `Query.InInputOrderAppend` | src/main.rs:66-69 | order follows the input: the answer for `a + b` is the answer for `a` followed by the answer for `b` |
| `Query.SameIdSameAnswer` | src/main.rs:67-68 | two positions that request the same id receive the same answer |
| `Query.LoadThenReorder` | src/main.rs:30-69 | when the batch fetch was given every requested id, every answer is present and is the user whose id is the id requested at that position |
| `Query.ExampleOrder` | src/main.rs:64-69 | asking for ids 3, 1, 2 after loading 1, 2, 3 gives users "User 3", "User 1", "User 2" in that order |

## Left out

- The actix-web server, its routes and guards, `graphql_handler`, `graphiql_handler`, the playground page and `main` (src/main.rs:76-120): network and user-interface plumbing.
- The library's `DataLoader` (batching windows, deduplication of in-flight keys, `tokio::spawn` scheduling, `load_one`, `load_many`): its code is not part of this model. `Users` receives the map `load_many` returns as an input.
- `Query::user` (src/main.rs:49-56): it only forwards to the library's `load_one`.
- The `println!` and the 100 ms `sleep` in `load` (src/main.rs:26-28): output and timing, with no effect on the result.
- The `Arc<anyhow::Error>` error type and the `?` propagation of a failed `load_many` in `users`: the repository's own code never produces an error. `LoadError` stands for the error type, and `Load` is proved never to return one.
- The GraphQL derive and attribute macros: `User` is a plain datatype.
- `HashMap` hashing and iteration order: the loaded map is a Dafny `map`, which has no order. The reordering step is what makes the answer's order independent of it.
- The comment at src/main.rs:32 speaks of making the keys unique first; the code does not. The model follows the code: a repeated key is inserted again and overwrites an equal user, so the result is the same.
