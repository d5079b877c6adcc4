# ABMECS environments and release script, modelled in Dafny

ABMECS is an agent-based modelling framework built on an entity-component
system. This project models two parts of it.

**Discrete environments** (`ECAgent/Environments.py`). `LineWorld`,
`GridWorld` and `CubeWorld` are environments with 1, 2 or 3 axes. At
construction each one creates one static cell agent per lattice point, named
`CELL_<index>`. Cells are appended with x fastest, then y, then z, and each
carries a `PositionComponent` holding its coordinate. External agents are
placed on the lattice with `addAgent`, which attaches a `PositionComponent`
and registers the agent by id. They are queried by coordinate with
`getAgentsAt` and leave with `removeAgent`, which detaches the component.
The three classes differ mainly in their number of axes. Here they are one
class, `Environments.World`, over a `Lattice.Shape`: `Line(width)`,
`Grid(width, height)` or `Cube(width, height, depth)`. They also differ in
three details, which the model keeps:
- `CubeWorld.getCell` computes its index with the depth where the height
  belongs (see below);
- `LineWorld.getCell` checks x against the length of the cell list, while
  the other two check every axis against its extent;
- `LineWorld.getDimensions` returns the bare width, while the other two
  return a tuple. Coordinates are
integer sequences with one entry per axis. An axis a shape lacks is 0 in a
position and has extent 1.

**Release script** (`changelogger.py`). Its pure core is modelled:
- sorting `git log` entries into features, fixes and performance changes by
  their `feat:`, `fix:` and `perf:` prefixes;
- bumping the major, minor or patch component of the package version;
- rendering the changelog as Markdown.

Files:
- `wrappers.dfy`: `Option` and `Result`.
- `text.dfy`: the Python string operations the script uses: `str(n)`,
  `int(s)`, `split`, slicing, `startswith` and `replace(p, '')`.
- `lattice.dfy`: shapes, the construction-order address and its inverse,
  the coordinate guards, and the index formulas `getCell` uses.
- `environments.dfy`: cells, the agent registry, the `getCell` lookups, and
  class `World`.
- `changelog.dfy`: module `Changelogger`.

Agents are values (`Environments.Agent`). Attaching or detaching a
`PositionComponent` yields the updated value, which the operation returns.
The registry is a map from id to agent plus the map's iteration order. This
models a Python dict, whose insertion order is the order `getAgentsAt`
reports agents in.

Construction (`ECAgent/Environments.py:181`) stores the cube cell for
(x, y, z) at index `z*width*height + y*width + x`. `CubeWorld.getCell`
(line 232) reads index `x + width*(y + depth*z)` instead. The two agree only
when height equals depth or z is 0 (see Findings). The model follows the code.

## Model

| member | source | states |
|---|---|---|
| Environments.World.Create | ECAgent/Environments.py:24-183 | for LineWorld, GridWorld and CubeWorld: construction succeeds if and only if every extent is at least 1, and fails with the extent error otherwise; on success the cell at index `z*w*h + y*w + x` is `CELL_<that index>` at (x, y, z) in the world's model, the registry is empty and the dimensions are the extents |
| Environments.World.constructor | ECAgent/Environments.py:171-183 | given valid extents, the new world is valid, keeps the given model and id, has an empty registry and holds exactly the cells construction appends |
| Environments.World.BuildCells | ECAgent/Environments.py:177-183 | the z, y, x loops produce exactly `CellCount` cells, and the cell at every index is the one named and positioned by that index's digits |
| Environments.CellNameParses | ECAgent/Environments.py:35-182 | a cell's id is `CELL_` followed by a numeral that parses back to its index |
| Environments.CellNamesDistinct | ECAgent/Environments.py:35-182 | cells at different indices get different ids |
| Environments.NewCell | ECAgent/Environments.py:35-183 | the cell appended at index i is named for i, belongs to the world's model, has no other components, and is placed at the in-range coordinate whose construction index is i |
| Lattice.AddressRoundTrip | ECAgent/Environments.py:181 | every in-range coordinate's construction address lies inside the cell list and decodes back to that coordinate |
| Lattice.PositionRoundTrip | ECAgent/Environments.py:181 | every index of the cell list decodes to an in-range coordinate whose address is that index |
| Lattice.AddressInjective | ECAgent/Environments.py:181 | two in-range coordinates with the same address are equal, so no cell is created twice |
| Lattice.CellCountProduct | ECAgent/Environments.py:178-180 | the number of cells the loops append is the product of the extents |
| Lattice.Address | ECAgent/Environments.py:34-181 | the construction index of a coordinate is x on a line, `x + y*width` on a grid, and lies inside the cell list for every in-range coordinate |
| Lattice.PositionOf | ECAgent/Environments.py:34-183 | the coordinate given to the cell appended at index i lies inside the lattice, and is (i, 0, 0) on a line |
| Lattice.ValidShape | ECAgent/Environments.py:26-168 | the constructors' guard accepts a shape if and only if every extent is at least 1 |
| Lattice.ToPosition | ECAgent/Environments.py:9-13 | the PositionComponent built from a coordinate holds the given axes, and an axis the coordinate lacks is 0 |
| Lattice.ToPositionAxes | ECAgent/Environments.py:9-13 | reading back the axes of a position the shape can hold gives the position again |
| Lattice.OnMap | ECAgent/Environments.py:43-190 | `addAgent`'s bounds guard passes if and only if the coordinate is inside the lattice |
| Lattice.InRangeOnMap | ECAgent/Environments.py:190 | every position inside the lattice passes the bounds guard |
| Lattice.LookupIndex | ECAgent/Environments.py:155-232 | on a line or a grid the index `getCell` reads is the construction address of the query |
| Environments.World.AddAgent | ECAgent/Environments.py:38-194 | an off-map coordinate fails with no change to the registry; otherwise the agent gets a PositionComponent at the coordinate, is registered under its id, and is then returned by `getAgentsAt` at that coordinate |
| Environments.Register | ECAgent/Environments.py:47-194 | registration stores the agent under its id; a new id is appended to the iteration order, a known id keeps its place, and the ids listed are the old ones plus the new one |
| Environments.RegisterValid | ECAgent/Environments.py:193-194 | registering a placed agent keeps every registered agent stored under its own id, placed on the map, and listed once in iteration order |
| Environments.AddThenQuery | ECAgent/Environments.py:185-194 | after adding, the agent is found at its coordinate and at no other, and every other agent's occupancy is unchanged |
| Environments.QueryAfterUpdate | ECAgent/Environments.py:220-223 | after the registry stores an agent under its id, a query finds it exactly at its own coordinate and answers as before for every other id |
| Environments.World.RemoveAgent | ECAgent/Environments.py:55-207 | a registered id has its PositionComponent detached and is deregistered; an unknown id changes nothing; afterwards no query returns that id |
| Environments.Deregister | ECAgent/Environments.py:60-207 | deregistration removes the id from the map and the iteration order, and leaves every other id, its agent, and the relative order of the remaining ids as they were |
| Environments.Without | ECAgent/Environments.py:60-207 | deleting an id from the iteration order drops exactly that id and keeps the other ids in their relative order |
| Environments.DeregisterValid | ECAgent/Environments.py:207 | deregistering keeps the registry invariant, including distinct ids in iteration order |
| Environments.RemoveThenQuery | ECAgent/Environments.py:202-207 | after removal no query returns an agent with the removed id, and every other agent's occupancy is unchanged |
| Environments.DeregisterIdempotent | ECAgent/Environments.py:202-207 | removing an unknown id changes nothing, and removing twice is the same as removing once |
| Environments.World.AddCellComponent | ECAgent/Environments.py:49-200 | the generator is called once per cell in list order, each time on the cell before its own update, and each cell gains exactly the component generated for it |
| Environments.World.SetModel | ECAgent/Environments.py:62-218 | the world and every cell move to the new model; each cell keeps its id, components and position (rebuilt from the axes it held), and the registry is unchanged |
| Environments.RebuildPosition | ECAgent/Environments.py:213-218 | rebuilding a cell's PositionComponent from the axes it held gives back the same position |
| Environments.Occupants | ECAgent/Environments.py:222-223 | the result is the subsequence of the registered agents, in iteration order, whose position matches; every registered agent whose position matches is in it |
| Environments.OccupantsDistinct | ECAgent/Environments.py:222-223 | no agent occurs twice in a query result, since no id occurs twice in the iteration order |
| Environments.OccupantsExactly | ECAgent/Environments.py:220-223 | an agent is in the query result if and only if it is registered under its id and positioned at the coordinate |
| Environments.OccupantsOffMap | ECAgent/Environments.py:220-223 | a query off the map returns the empty list, because every registered agent is placed on the map |
| Environments.World.GetAgentsAt | ECAgent/Environments.py:71-223 | membership in the result is exactly "registered under its id and positioned at the coordinate"; the result has no duplicates and lists the matching agents in registration order; an off-map query gives the empty list |
| Environments.World.GetDimensions | ECAgent/Environments.py:75-226 | the world's width, then its height and depth where the class has them; each at least 1, and their product is the number of cells |
| Environments.World.GetCell | ECAgent/Environments.py:78-232 | returns "not found" exactly when an axis is off the map; otherwise the entry of the cell list at the class's own index, or an IndexError past its end; on a line, a grid, and a cube whose height equals its depth, that is the cell at the query's construction address, whose position is the query |
| Environments.CellLookup | ECAgent/Environments.py:78-232 | on a grid or a cube "not found" is returned exactly off the map, on a line exactly outside the cell list; a found cell is the list entry at the lookup index; an index past the list is an IndexError |
| Environments.LookupNotFound | ECAgent/Environments.py:228-230 | the lookup signals "not found" if and only if some axis is outside its extent |
| Environments.LookupFindsQuery | ECAgent/Environments.py:151-155 | on a line, a grid, or a cube with height equal to depth, the lookup returns the cell whose position is the query |
| Lattice.LookupIndexAgreement | ECAgent/Environments.py:232 | the lookup index equals the construction address on lines and grids; on a cube it does so exactly when height equals depth or z is 0 |
| Environments.CubeLookupCorrectIff | ECAgent/Environments.py:228-232 | on a cube, every on-map lookup returns the queried cell if and only if height equals depth or depth is 1 |
| Environments.CubeLookupWrongCell | ECAgent/Environments.py:232 | in a 1×2×3 cube, looking up (0, 0, 1) returns the cell at (0, 1, 1) |
| Environments.CubeLookupPastEnd | ECAgent/Environments.py:232 | in a 2×1×2 cube, looking up (0, 0, 1) reads past the end of the four-cell list |
| Environments.CellLookupIntended | ECAgent/Environments.py:181 | the corrected lookup finds nothing exactly off the map, and otherwise the cell at the query's construction address, whose position is the query |
| Environments.World.GetCellIntended | ECAgent/Environments.py:228-232 | the corrected `getCell` returns "not found" exactly off the map, and otherwise the world's cell at the query's construction address, whose position is the query, on every shape |
| Environments.IntendedLookupAgrees | ECAgent/Environments.py:228-232 | wherever the code's lookup is right (lines, grids, cubes with height equal to depth), it returns the same as the corrected lookup |
| Text.NatToString | changelogger.py:61 | `str(n)` is a non-empty string of decimal digits with no leading zero |
| Text.ParseNat | changelogger.py:61 | `int(s)` succeeds exactly on a non-empty string of decimal digits |
| Text.ParsePrinted | changelogger.py:61 | parsing the printed form of n gives back n |
| Text.PrintParsed | changelogger.py:61 | printing a parsed numeral without a leading zero gives back the numeral |
| Text.SplitLength | changelogger.py:36 | `split(sep)` gives one more part than there are separators |
| Text.Split | changelogger.py:36 | `split(sep)` gives at least one part, and no part contains the separator |
| Text.SplitKeepsAbsent | changelogger.py:54 | a character absent from a string is absent from every part of its split |
| Text.JoinSplit | changelogger.py:54 | joining the parts of a split with the separator gives back the string |
| Text.Prefix | changelogger.py:89 | `s[0:6]` is a prefix of s of length six, or all of s if it is shorter |
| Text.StartsWith | changelogger.py:38-44 | `s.startswith(p)` holds if and only if p is no longer than s and agrees with s at every index of p |
| Text.RemoveAll | changelogger.py:39-45 | `replace(p, '')` never lengthens the string and introduces no character that was not in it |
| Text.RemoveAllLength | changelogger.py:39 | `replace(p, '')` removes exactly |p| characters per occurrence found, and leaves a string without p unchanged |
| Text.RemoveAllLeading | changelogger.py:38-39 | a leading occurrence of the prefix is removed together with every later one |
| Changelogger.AdjustVersion | changelogger.py:59-65 | too few components raise IndexError; otherwise ValueError is raised exactly when the component being bumped is not a number |
| Changelogger.AdjustVersionComponents | changelogger.py:59-65 | the bumped version has three components split on '.': the earlier ones verbatim, the bumped one incremented, the later ones "0" |
| Changelogger.BumpVersion | changelogger.py:54-65 | for a canonical version M.m.p, type 0 gives (M+1).0.0, type 1 gives M.(m+1).0, and any other type gives M.m.(p+1) |
| Changelogger.Section | changelogger.py:83-91 | a section is empty exactly when it has no commits |
| Changelogger.LineText | changelogger.py:89 | a bullet built from a commit whose message and hash are one line each is one line |
| Changelogger.CommitLine | changelogger.py:89 | the appended bullet is that line followed by exactly one newline |
| Changelogger.LineTexts | changelogger.py:88-89 | the bullet lines of a list of commits are, in order, one bullet per commit |
| Changelogger.FormatCommits | changelogger.py:83-91 | the loop's result is the section: a header, then one bullet per commit in order |
| Changelogger.SectionSplit | changelogger.py:86-89 | split into lines, a section is its header, a blank line and one bullet per commit in input order, each bullet linking to the commit's full hash and showing its first six characters |
| Changelogger.ChangelogLines | changelogger.py:68-91 | split into lines, the changelog is the title, a blank line, then the feature, fix and performance sections in that order |
| Changelogger.Title | changelogger.py:71 | for a one-line version, the title is the line `#Version: <version>` followed by a blank line |
| Changelogger.ChangelogMarkdown | changelogger.py:68-80 | the changelog begins with `#Version: <version>` and a blank line, and is nothing more exactly when there are no commits of any kind |
| Changelogger.Classify | changelogger.py:35-49 | an entry that does not consist of exactly one message line and one hash line is skipped, and a filed entry has no newline in its message or hash |
| Changelogger.ClassifyEntry | changelogger.py:36-46 | an entry `msg\nsha` is filed by the first matching prefix of feat:, fix: and perf:, with that prefix removed; any other message is dropped |
| Changelogger.ClassifyRemovesEveryOccurrence | changelogger.py:39 | a message `feat:xfeat:` is filed as `x`: every occurrence of the prefix is removed, not only the leading one |
| Changelogger.SortCommits | changelogger.py:30-49 | the loop builds exactly the three lists the classification gives for the entries in order |
| Changelogger.Sorted | changelogger.py:34-49 | the three lists after the loop, built entry by entry; together they hold at most one entry per `git log` entry |
| Changelogger.SortedIsEntries | changelogger.py:34-46 | each list holds exactly the entries classified under its kind, in encounter order |
| Changelogger.SortedAppend | changelogger.py:34-49 | sorting a concatenation of entry lists concatenates the three lists, so encounter order is kept |
| Changelogger.GenerateChangelog | changelogger.py:50-56 | fails exactly when the version bump fails; on success it returns the bumped version and the Markdown rendering of the three lists the classification builds |
| Changelogger.SortedSingleLine | changelogger.py:36-46 | no entry the loop files, under any kind, has a newline in its message or hash |
| Changelogger.VersionSingleLine | changelogger.py:54-65 | a version bumped from a one-line version string is one line |
| Changelogger.GenerateChangelogLines | changelogger.py:15-56 | for a one-line package version, the changelog returned, split into lines, is the new version's title, a blank line, then one section per non-empty kind with one bullet per filed entry in encounter order |

## Left out

- The `ECAgent.Core` base classes (`Agent`, `Environment`, `Component`, `Model`) are not part of this model. The registry's add and remove are modelled as dictionary assignment and deletion by id. Whether the base class accepts a duplicate id, and what it does for an unknown id, cannot be seen. The model lets a duplicate id replace the earlier agent in place and treats an unknown id as a no-op.
- Agents are values, not shared objects. The model returns the agent with its PositionComponent attached or detached instead of updating the caller's object, so aliasing between the caller and the registry is not modelled.
- Components other than PositionComponent are opaque records. `addCellComponent`'s generator is a pure function from a cell to the component it adds. Any other side effect of the generator is not modelled.
- `setModel` on the base class is modelled only as setting the world's model. The rebuilt PositionComponent's reference to its cell and model is not modelled.
- `World.GetDimensions` returns a sequence for every shape, so `LineWorld.getDimensions`'s bare width is returned as a one-element sequence.
- Coordinates are integers; non-integer coordinates are not modelled. PositionComponent's `float` defaults (0.0) are used only for the axes a shape lacks, which are 0 here.
- `addAgent`'s default coordinates (`xPos = 0`, `yPos = 0`, and the 3D class's `zPos = 0.0`; ECAgent/Environments.py lines 38, 110 and 185) are not modelled. `World.AddAgent` takes a coordinate with one entry per axis.
- The constructors' default `id = 'ENVIRONMENT'` (ECAgent/Environments.py lines 24, 93 and 166) is not modelled. `World.Create` takes the id explicitly.
- `generate_changelog`'s default `version_type = 2` (changelogger.py line 15) is not modelled. `GenerateChangelog` takes the version type explicitly.
- The 3D class's exception message says "negative width or height" for any extent below 1. Errors are modelled as `EnvError` values, not messages.
- Changelogger.AdjustVersion: models `int()` only on plain ASCII decimal digits. Python also accepts a sign, surrounding whitespace and `_` separators, and negative components are not modelled.
- The script's entries are taken as given. Running `git describe` and `git log`, splitting git's output on `--DELIM--\n`, reading and writing `package.json` and `CHANGELOG.md`, staging, committing and tagging, and the `__main__` block are I/O and are not modelled.
- Byte decoding (`decode('UTF-8')`) is not modelled. Strings are sequences of characters.

## Findings

| source | as written | input that shows it | evidently intended | confidence | as-written member | corrected member |
|---|---|---|---|---|---|---|
| ECAgent/Environments.py:232 | `getCell` indexes `cells[x + width*(y + depth*z)]`, but construction (line 181) stores (x, y, z) at `z*width*height + y*width + x` | `CubeWorld(1, 2, 3)`, `getCell(0, 0, 1)` returns the cell at (0, 1, 1); `CubeWorld(2, 1, 2)`, `getCell(0, 0, 1)` reads index 4 of a 4-cell list | index `x + width*(y + height*z)`, the construction order, returning the queried cell on every shape | high; proved, not executed | Environments.CubeLookupCorrectIff | Environments.World.GetCellIntended |
