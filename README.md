# Spin-lattice engines on a torus, in Dafny

This project models the lattice logic of a small two-dimensional spin
simulator. Every engine works on an N x N grid of +1/-1 spins with periodic
(toroidal) neighbours, and each is modelled in the form its Python source
takes:

- **Ising** (`ising.py`) is the Metropolis single-flip sweep. A method
  flips cells of an `array2<int>` in place for N^2 attempts.
- **Kawasaki** (`kawasaki.py`) is the pair-exchange sweep that conserves
  magnetisation.
  - `get_lists` fills two preallocated coordinate buffers, `up` and `down`,
    using running counters.
  - `coord_swap` exchanges one row of each table.
  - `update_state_kawasaki` exchanges a +1 and a -1 spin in place, keeping
    both tables in step with the lattice.
- **Wolff** (`wolff.py`) is recursive cluster growth over a marker array,
  followed by the element-wise flip `lattice * state` and the energy sum
  `calcE`.
- **Voter** (`voter.py`) is the noisy voter sweep. At each attempt the
  chosen cell either takes a random opinion or copies a neighbour.
- **Contour** (`contour.py`) covers the polarised initial grid `init_pol`
  and the like-spin link count `count_links`.

Shared definitions live in two modules.

- `Lattice` holds coordinates, grids and the four toroidal neighbours.
  `Cells(state)` is the grid value that an array holds at a given moment.
- `Sums` holds finite sums over index ranges.

Each in-place method is proved against a function on grid values: an
`Attempt` for one step or a `SweepFrom` for a whole sweep. The lemmas about
those functions state what the source promises:

- conservation of magnetisation;
- tables that stay in step with the lattice;
- table indices that stay in range;
- clusters that are connected, single-spin and exactly the seed's component
  when every draw accepts;
- an even link count;
- energy identities.

The random generator is an input.

| draw in the source | input in the model |
|---|---|
| positions from `rng.integers` | the sequences `sites` (Ising, Voter) |
| index pairs from `rng.integers` | the sequence `picks` (Kawasaki) |
| floats from `rng.random()` | the stream `random: nat -> real` |

Each method returns the number of floats it consumed, so a `random(k) < x`
comparison is tied to the exact draw the source makes at that point. In
`stepMC` the first two floats, `random(0)` and `random(1)`, go to the seed,
so cluster growth reads from `random(2)` on and the returned count includes
those two. The
acceptance tables (`exponent`) and the Wolff probability `P` are inputs as
well. All arithmetic is exact: integers are unbounded and the energy and
link values are exact reals.

## Model

| member | source | states |
|---|---|---|
| Lattice.PosNeighbourhood | wolff.py:68-73 | four coordinates in the fixed order (r+1,c), (r-1,c), (r,c+1), (r,c-1), each taken mod N and inside the grid; contour.py:33-38 is the same function |
| Lattice.PosNeighbourhoodWraps | wolff.py:70-73 | the neighbours wrap: the successor of the last row or column is 0 and the predecessor of 0 is N-1 |
| Lattice.PosNeighbourhoodSymmetric | contour.py:35-38 | one step down then up (or right then left) returns to the site, so the slot relation is symmetric |
| Lattice.PosNeighbourhoodDistinct | contour.py:35-38 | the four neighbours are pairwise distinct exactly when N >= 3, and then none of them is the site itself |
| Lattice.NeighbourSum | ising.py:27-32 | on a spin grid the four-neighbour sum is even and lies in [-4, 4] |
| Lattice.NeighbourSumIsSlots | ising.py:27-32 | the neighbour sum is the sum of the spins at the four PosNeighbourhood coordinates |
| Lattice.GetNeighborhood | kawasaki.py:77-85 | the array expression equals the toroidal neighbour sum of the current lattice (also ising.py:22-32) |
| Lattice.Assign | ising.py:61 | item assignment changes exactly one cell of the array to the given value |
| Lattice.FlipUpCount | ising.py:61 | negating a spin changes the number of +1 cells by one, towards the new value |
| Lattice.MagnetisationFromUpCount | kawasaki.py:11-12 | on a spin grid the magnetisation is 2 * (number of +1 cells) - N^2 |
| Lattice.FlipTwiceBack | kawasaki.py:158-159 | negating the two chosen sites twice restores the lattice exactly |
| Lattice.SlotPairsTwice | contour.py:46-47 | for a symmetric pairing, the sum over all sites and four slots is twice the sum over down and right pairs |
| Lattice.UpPairsAreDownPairs | contour.py:46-47 | the up-neighbour pairs of the torus are the down-neighbour pairs re-indexed |
| Lattice.LeftPairsAreRightPairs | contour.py:46-47 | the left-neighbour pairs of the torus are the right-neighbour pairs re-indexed |
| Ising.InitializeState | ising.py:19 | an N x N grid of all +1 |
| Ising.InitializeStateMagnetised | ising.py:19 | the start has N^2 up spins and magnetisation N^2 |
| Ising.DeltaE | ising.py:58 | dE = 2 s nb is a multiple of 4 in [-8, 8], so one of -8, -4, 0, 4, 8 |
| Ising.TableIndex | ising.py:60 | for dE > 0 the index int(dE/4 - 1) is 0 or 1, and it selects the entry for that dE |
| Ising.Attempt | ising.py:58-61 | an attempt keeps a spin grid of the same shape, either leaves it as it was or negates the chosen cell, and draws at most one float |
| Ising.AttemptEffect | ising.py:58-61 | the chosen cell is negated exactly when dE <= 0 or the draw is below the entry; a float is drawn exactly when dE > 0; no other cell changes; cells stay +1/-1 |
| Ising.AttemptZeroTemperature | ising.py:60-61 | with a zero table an attempt flips exactly when dE <= 0 |
| Ising.FlipEnergy | ising.py:58 | dE is the energy change of the flip: on a torus of side at least 2, negating the spin lowers the sum of s n over all sites by exactly 2 dE |
| Ising.AttemptZeroTemperatureEnergy | ising.py:58-61 | with a zero table an attempt never lowers the sum of s n, so it never raises the Metropolis energy; this holds on every side, including N = 1 |
| Ising.SelfNeighbour | ising.py:58 | on a 1 x 1 torus the site is its own four neighbours, so dE = 8 |
| Ising.SweepZeroTemperature | ising.py:55-61 | with a zero table a whole sweep never lowers the sum of s n |
| Ising.SweepFrom | ising.py:55-61 | a sweep keeps a spin grid of the same shape and draws at most one float per attempt |
| Ising.FlipAll | ising.py:61 | flipping a sequence of sites keeps a spin grid of the same shape |
| Ising.SweepInfiniteTemperature | ising.py:55-61 | when every table entry is 1 and every draw is below 1, the sweep flips each drawn site in turn |
| Ising.AttemptInPlace | ising.py:56-61 | one in-place attempt produces the Attempt grid and the draw count |
| Ising.UpdateStateIsing | ising.py:52-63 | N^2 in-place attempts at the drawn positions give the SweepFrom grid and draw count |
| Kawasaki.ScanOne | kawasaki.py:53-58 | one cell appends its coordinate to `up` if it holds 1, otherwise to `down`; one counter advances and nothing else changes |
| Kawasaki.ScanRow | kawasaki.py:52-58 | one row appends its +1 cells to `up` and its other cells to `down`, in column order |
| Kawasaki.ScanRows | kawasaki.py:42-58 | after the `np.ndindex` scan the prefixes of the buffers are the row-major scans and the rest still holds (-1, -1) |
| Kawasaki.RowScan | kawasaki.py:53-58 | the coordinates of the first c cells of one row that select a table, in column order (definition; ScanRow is proved against it) |
| Kawasaki.Scan | kawasaki.py:52-58 | the row-major scan of the first i rows (definition; ScanMembers, ScanEntries, ScanOrdered and ScanLengths state its properties) |
| Kawasaki.Synced | kawasaki.py:42-61 | tables in step with the lattice: each +1 cell once in `up`, each -1 cell once in `down`, N^2 entries together (definition; GetListsSynced and AttemptKeepsSynced establish and keep it) |
| Kawasaki.DropUnfilled | kawasaki.py:60-61 | the filter is no longer than its input; it keeps exactly the entries other than (-1, -1) |
| Kawasaki.DropUnfilledPrefix | kawasaki.py:60-61 | dropping fill rows from real coordinates followed by fill rows leaves exactly the real coordinates |
| Kawasaki.DropUnfilledBuffer | kawasaki.py:60-61 | the filter keeps exactly the scanned prefix of a buffer |
| Kawasaki.GetLists | kawasaki.py:42-63 | the returned tables are the row-major scans of the +1 cells and of the other cells |
| Kawasaki.ScanMembers | kawasaki.py:52-58 | a coordinate is in a scan exactly when it is a cell of the scanned rows whose value selects that table (1 for `up`, anything else for `down`) |
| Kawasaki.ScanEntries | kawasaki.py:52-58 | every entry of a scan is a cell of the scanned rows whose value selects that table |
| Kawasaki.ScanOrdered | kawasaki.py:52-58 | each scan is strictly row-major ordered, so no coordinate repeats |
| Kawasaki.ScanLengths | kawasaki.py:52-58 | the two scans of i rows have i*N entries together |
| Kawasaki.ScanUpCount | kawasaki.py:53-55 | the +1 scan has one entry per +1 cell |
| Kawasaki.GetListsSynced | kawasaki.py:42-61 | every +1 cell is in `up` exactly once and every -1 cell in `down` exactly once; the tables are disjoint, their lengths sum to N^2, and `up` has UpCount entries |
| Kawasaki.CoordSwap2 | kawasaki.py:95-104 | the two values are exchanged |
| Kawasaki.CoordSwap | kawasaki.py:87-93 | row p1 of `up` and row p2 of `down` are exchanged and every other entry is unchanged |
| Kawasaki.Local | kawasaki.py:147 | s * nb at one site is even and lies in [-4, 4] |
| Kawasaki.PairTerm | kawasaki.py:147-152 | dEu and dEv are even and lie in [-8, 8] |
| Kawasaki.SwapSpins | kawasaki.py:149-150 | negating both chosen sites keeps a spin grid of the same shape |
| Kawasaki.Delta | kawasaki.py:154 | dEu - dEv is even and in [-16, 16], so a positive one indexes entry dEu - dEv - 1 of the 16-entry table |
| Kawasaki.Accepts | kawasaki.py:154 | the Metropolis test: accepted when dEu - dEv <= 0, otherwise when the next float is below entry dEu - dEv - 1 (definition; AttemptOutcome states its effect) |
| Kawasaki.Attempt | kawasaki.py:147-159 | an attempt keeps a spin grid of the same shape and the table lengths, and draws at most one float |
| Kawasaki.AttemptKeepsSynced | kawasaki.py:147-159 | tables in step with the lattice stay in step after an attempt, with unchanged lengths |
| Kawasaki.AttemptConserves | kawasaki.py:147-159 | an attempt keeps the number of +1 cells and the magnetisation |
| Kawasaki.AttemptOutcome | kawasaki.py:154-159 | on acceptance the two sites trade spins and table rows and nothing else changes; on rejection lattice and tables are as before; a float is drawn exactly when dEu - dEv > 0 |
| Kawasaki.FlipsCommute | kawasaki.py:149-150 | the order in which the two sites are negated does not matter |
| Kawasaki.FarApartDelta | kawasaki.py:136-145 | for sites that are not neighbours, dEu - dEv = 2 dEu: the current lattice alone decides |
| Kawasaki.ExchangeEnergy | kawasaki.py:147-154 | dEu - dEv is the energy change of the exchange: on a torus of side at least 2, negating both sites lowers the sum of s n over all sites by exactly 2 (dEu - dEv), neighbours or not |
| Kawasaki.AttemptZeroTemperatureEnergy | kawasaki.py:154-159 | with a zero table an attempt is kept only when dEu - dEv <= 0, so it never lowers the sum of s n |
| Kawasaki.SweepZeroTemperature | kawasaki.py:132-159 | with a zero table a whole sweep never lowers the sum of s n |
| Kawasaki.SweepFrom | kawasaki.py:132-159 | a sweep keeps the tables in step and draws at most one float per attempt |
| Kawasaki.SweepConserves | kawasaki.py:132-159 | a whole sweep keeps the number of +1 cells and the magnetisation |
| Kawasaki.PairTermOf | kawasaki.py:147 | the array expression for dEu/dEv equals PairTerm of the current lattice |
| Kawasaki.NegateBoth | kawasaki.py:149-150 | both chosen cells are negated in place |
| Kawasaki.AttemptInPlace | kawasaki.py:147-159 | one in-place attempt on lattice and tables gives exactly Attempt's lattice, tables and draw count |
| Kawasaki.SweepInPlace | kawasaki.py:132-159 | the in-place loop over the index pairs gives SweepFrom's lattice, tables and draw count |
| Kawasaki.UpdateStateKawasaki | kawasaki.py:127-161 | with an empty table on a non-empty lattice it fails (the `rng.integers(0, 0)` error) and changes nothing; otherwise N^2 attempts give SweepFrom's result |
| Wolff.Grow | wolff.py:45-55 | the seed marker becomes -1; markers only go from +1 to -1; the number of +1 markers strictly falls; every entered site has the seed's lattice spin; at most four floats are drawn per entered site |
| Wolff.GrowFrom | wolff.py:47-53 | the neighbour loop only turns +1 markers into -1; entered sites have the scanning site's lattice spin; at most one float per remaining slot plus four per entered site |
| Wolff.GrowConnected | wolff.py:45-53 | every entered site is reached from the seed along entered same-spin neighbours |
| Wolff.GrowAccepting | wolff.py:47-53 | when every draw accepts, each entered site has all its same-spin neighbours marked |
| Wolff.GrowRejecting | wolff.py:47-53 | when every draw rejects, only the seed is marked, and exactly one float is drawn per neighbour of the seed's spin |
| Wolff.SameFrom | wolff.py:49-50 | the slots idx..3 whose neighbour has the site's lattice spin, at most 4 - idx of them |
| Wolff.PendingFlip | wolff.py:45 | entering a site removes exactly its same-spin slots from the float count still pending for +1 markers |
| Wolff.GrowDraws | wolff.py:45-55 | `update` draws exactly one float for each same-spin neighbour slot of every site it enters, the seed included |
| Wolff.GrowFromDraws | wolff.py:47-53 | the neighbour loop from slot idx draws exactly one float per remaining same-spin slot of the site, plus one per same-spin slot of every site entered |
| Wolff.ClusterConnected | wolff.py:20-22 | the cluster `stepMC` grows holds the seed and is connected through marked same-spin neighbours |
| Wolff.ClusterWithinComponent | wolff.py:49-53 | every marked site lies in the seed's same-spin connected component |
| Wolff.ClusterAllAccept | wolff.py:47-53 | when every draw accepts, the marked set is closed under same-spin neighbour steps, so it is the whole component |
| Wolff.Update | wolff.py:30-55 | the in-place recursion on the marker array gives Grow's markers and draw count |
| Wolff.Product | wolff.py:28 | marked sites are negated, all others unchanged, and values stay +1/-1 |
| Wolff.StepMC | wolff.py:19-28 | the result is the lattice with the cluster grown from the seed on an all +1 marker array flipped; growth starts after the two seed draws, which the count includes |
| Wolff.NeighbourSumOf | wolff.py:93-97 | the neighbour sum read with `len(state[:, 0])` and `len(state[0, :])` as moduli is the toroidal neighbour sum |
| Wolff.TotalEnergy | wolff.py:88-101 | the `calcE` energy: half the sum over all sites of n s + 2 mu H s, in exact arithmetic (definition; EnergyDecomposition splits it) |
| Wolff.CalcE | wolff.py:88-101 | the nested loops accumulate the sum over sites of (n s)/2 + mu H s |
| Wolff.EnergyDecomposition | wolff.py:99 | the energy is half the sum of s n plus mu H times the magnetisation |
| Wolff.LinkEnergyPairs | wolff.py:97-99 | the sum of s n is twice the sum over down and right neighbour pairs |
| Wolff.LinkEnergyFlip | wolff.py:97-99 | on a torus of side at least 2, negating the spin s at p lowers the sum of s n over all sites by 4 s nb(p) |
| Wolff.CalcEFieldFree | wolff.py:88-101 | with H = 0 the energy is the whole number (sum of s n) / 2 |
| Voter.InitializeState | voter.py:17-19 | all -1 when the draw is below 0.5, all +1 otherwise |
| Voter.InitializeStateMagnetised | voter.py:17-19 | the start has magnetisation -N^2 or N^2, by the draw |
| Voter.NeighborCoord | voter.py:26-31 | the picked coordinate is one of the four neighbours |
| Voter.Slot | voter.py:28-29 | the two coins select one of four slots |
| Voter.NeighborCoordIsSlot | voter.py:28-31 | the first coin picks the axis and the second the step; each slot is selected by exactly one pair of coin outcomes |
| Voter.GetNeighbor | voter.py:22-33 | the value read is that of the picked neighbour |
| Voter.Attempt | voter.py:58-61 | an attempt keeps the shape and draws two or three floats |
| Voter.AttemptEffect | voter.py:58-61 | noise sets the cell by the coin; otherwise it copies a neighbour's old value; no other cell changes; cells stay +1/-1 |
| Voter.SweepFrom | voter.py:55-61 | a sweep keeps the shape and the spin values and draws two or three floats per attempt |
| Voter.SweepKeepsConsensus | voter.py:55-61 | a uniform grid whose noise draws all fail stays the same, with three draws per attempt |
| Voter.AttemptInPlace | voter.py:58-61 | one in-place attempt, with the neighbour read before the write, gives Attempt's grid and draw count |
| Voter.UpdateStateVoter | voter.py:52-63 | N^2 in-place attempts give SweepFrom's grid and draw count |
| Contour.Arange | contour.py:5 | each cell holds its row-major index i N + j |
| Contour.SetBelow | contour.py:6 | the masked assignment sets exactly the cells below T |
| Contour.SetAtLeast | contour.py:7 | the masked assignment sets exactly the cells at least T |
| Contour.Threshold | contour.py:6-7 | the threshold N^2 * 0.5 * (m + 1) of both masked assignments, as an exact real (definition) |
| Contour.InitPol | contour.py:5-7 | cell k is +1 exactly when T > 1 and k < T, else -1; the grid is N x N and holds only spins |
| Contour.InitPolAgrees | kawasaki.py:21-23 | the fill before the shuffle (the same two passes as `init_pol`) equals the single-pass grid when T > 1 |
| Contour.InitPolLosesFirstCell | contour.py:6-7 | for N = 2 and m = -0.5 (T = 1) the intended grid has a +1 at (0, 0) and the grid as written does not |
| Contour.InitPolIntended | contour.py:5-7 | the corrected single-pass fill is an N x N grid of spins; Contour.InitPolIntendedUpCount gives its number of up spins |
| Contour.InitPolIntendedUpCount | contour.py:6-7 | when T is a whole number t <= N^2, the corrected fill has exactly t up spins |
| Contour.LikeSlots | contour.py:46-48 | among the first `upto` slots, between 0 and `upto` are like-valued |
| Contour.LikePairs | contour.py:42-48 | the raw like count of a grid lies between 0 and four per site |
| Contour.CountSite | contour.py:46-48 | the slot loop adds the like-valued slots of one site |
| Contour.CountRow | contour.py:45-48 | the column loop adds the like-valued slots of one row |
| Contour.CountLinks | contour.py:40-49 | the result is half the number of like-valued (site, slot) pairs |
| Contour.LinksPairs | contour.py:44-48 | the raw count is twice the number of like-valued down and right pairs |
| Contour.LinksEven | contour.py:42-49 | the raw count is even and in [0, 4N^2], so `count_links` is a whole number in [0, 2N^2] |
| Contour.LinksUniform | contour.py:44-49 | on a uniform grid the raw count is 4N^2, so `count_links` is 2N^2 |
| Contour.LinkEnergyFromLikes | contour.py:46-47 | on spins the sum of s n is twice the raw like count minus 4N^2 |
| Contour.CalcEFromLinks | contour.py:40-49 | with H = 0, `calcE` equals 2 * count_links - 2N^2 (wolff.py:97-99) |
| Contour.AlignedEnergy | wolff.py:88-101 | with H = 0 the aligned grid has `calcE` value 2N^2, 8 for N = 2 |
| Contour.AlignedEnergyLargest | wolff.py:88-101 | with H = 0 no spin grid has a larger `calcE` than the aligned one |

## Left out

- The random generator is not modelled. Integer draws are the given
  sequences `sites` and `picks`, and float draws are the given stream
  `random`. The source takes both from one generator, so the joint
  distribution of integer and float draws is not captured.
- The acceptance tables, `exp`, `P = 1 - exp(-2 kT)` and the rounding of
  the Wolff seed (`np.around((N - 1) * rng.random())`, wolff.py:24) are
  not computed. The tables, `P` and an in-range seed are inputs. The seed
  stands for the rounding of `random(0)` and `random(1)`: Wolff.StepMC
  counts those two draws and grows the cluster from `random(2)` on, but
  does not tie the seed's value to them.
- Floating point is not modelled. Every comparison and the halvings in
  `calcE` and `count_links` are exact. The `init_pol` threshold is the
  exact real N^2 * 0.5 * (m + 1).
- The shuffle in `initialize_kawasaki` (kawasaki.py:24-26) is left out.
  Its two-pass fill is the same function as `init_pol`.
- `init_random`, `index_links` (contour.py) and `scale.py` are float
  statistics, means and library numerics, so they are not part of this
  model.
- wolff.py `initialize_state` (a rounded random grid), matplotlib and the
  default arguments are plumbing and are left out. These include the
  default generators and `calcE`'s defaults `H = 0` and `mu = 1`
  (wolff.py:75). Wolff.TotalEnergy and Wolff.CalcE take H and mu as
  inputs.
- Python's recursion-depth limit in `update` is not modelled. The
  recursion is modelled directly and terminates because the number of +1
  markers falls.
- numpy's float arrays (`np.ones`) are modelled as integer arrays holding
  the same values.
- Ising.UpdateStateIsing: the lattice must hold only +1/-1. The source
  does not check this. On other values its table index can leave the
  table.
- Kawasaki.UpdateStateKawasaki: `up` and `down` must be in step with the
  lattice on entry, as `get_lists` makes them (Kawasaki.GetListsSynced).
  The source does not check this.
- Wolff.Update: the marker array must hold only +1/-1 and the seed's
  marker must be +1. `stepMC` ensures both. A call made directly on other
  markers is not modelled.
- Wolff.TotalEnergy: the model keeps the sign `calcE` has in the source,
  +(sum of s n)/2 + mu H (sum of s) (wolff.py:97-99). That is the negative
  of the energy -(sum of s n)/2 whose change the Metropolis and Kawasaki
  rules test (ising.py:58, kawasaki.py:147-154). So the aligned grid has
  the largest `calcE`, 8 for N = 2 (Contour.AlignedEnergy,
  Contour.AlignedEnergyLargest). At zero temperature a sweep never lowers
  the sum of s n, so with H = 0 it never lowers `calcE`
  (Ising.SweepZeroTemperature, Kawasaki.SweepZeroTemperature). "The energy
  never increases" holds for -`calcE`.
- Ising.FlipEnergy and Kawasaki.ExchangeEnergy need a side of at least 2.
  On a 1 x 1 torus the site is its own neighbour, and the identity fails.
- Voter.SweepKeepsConsensus: the hypothesis fixes the noise draws of
  attempt t at index 3t. That is the stream position when no earlier
  attempt took the noise branch.

## Findings

| source | as written | input that shows it | evidently intended | confidence | as-written member | corrected member |
|---|---|---|---|---|---|---|
| contour.py:6-7 | the second masked assignment re-tests the cells the first set to 1; when 0 < T <= 1 they compare 1 >= T and all become -1 (kawasaki.py:22-23 repeats the two passes) | N = 2, m = -0.5, so T = 1 | cell 0 is +1 (one up spin) | not executed | Contour.InitPolLosesFirstCell | Contour.InitPolIntended |
