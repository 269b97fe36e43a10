# Statistics of the bitcoin-otc web of trust, in Dafny

This project models the statistics layer of a small analysis of the
bitcoin-otc trust network. The input is an edge table. Each row has a
SOURCE, a TARGET, a signed RATING and a TIME. From that table the code
derives graphs, degree tables, degree distributions, rankings and time
series. The model covers these pieces:

- `distro.py`: the `Distribution` helpers.
  - `distributions`: a degree histogram with p, cdf and ccdf columns.
  - `overall_ratings`: the summed rating received by each node.
  - `cc_by_degree`: the mean clustering coefficient for each degree.
  - `network_growth`: min-max normalised running edge count and running rating sum.
  - `top_5_users_k`: the five most active users. This is a loop; it is modelled as a method with invariants.
  - `k_vs_t`: the running per-user counters.
- The `main` functions of `bitcoin_otc.py`, `pos_net.py` and `neg_net.py`. Each one:
  - filters the table (all rows, `RATING > 0` or `RATING < 0`);
  - builds a `networkx.DiGraph` with `from_pandas_edgelist`;
  - tabulates in- and out-degrees by node;
  - takes their means;
  - computes both degree distributions.
- `plot_top10`'s selection of rows.

Modules follow that structure:

| module | file | what it holds |
|---|---|---|
| `Seqs` | seqs.dfy | the pandas/numpy primitives: unique, sorted-unique, a descending sort, counts, sums, cumulative sums, argmin/argmax, head and top-k |
| `Table` | table.dfy | edge rows, boolean indexing (`Where`), and row counts per sender and per receiver |
| `DiGraphs` | digraph.dfy | `from_pandas_edgelist` as a fold over the rows; in- and out-degree; degree tables and their means |
| `DegreeDistribution` | distribution.dfy | `distributions` |
| `Analysis` | analysis.dfy | the computation every `main` runs on its table |
| `OverallRatings` | ratings.dfy | `overall_ratings` and the nine rows `plot_top10` keeps |
| `TopUsers` | top_users.dfy | `top_5_users_k` |
| `Growth` | growth.dfy | `network_growth` and `k_vs_t` |
| `Clustering` | clustering.dfy | `to_undirected` and `cc_by_degree` |
| `BitcoinOtc`, `PosNet`, `NegNet` | bitcoin_otc.dfy, pos_net.dfy, neg_net.dfy | the three `main` functions |

Conventions of the model:

- The graph builder keeps the nodes in first-appearance order. A `(SOURCE, TARGET)` pair rated several times becomes one edge that carries the RATING of its last row. Degrees therefore count distinct neighbours, not rows.
- Reals stand for floats. `None` stands for the NaN that `mean()` returns on an empty column.
- Sorts whose tie order pandas leaves unspecified are modelled by one fixed sort. Their contracts speak only of order and membership, so they hold for any tie order.

Some natural readings of the program are not what its code does; the model follows the code:

- A degree could be read as a count of rated rows. The code builds a `DiGraph`, which merges repeated pairs, so a degree counts distinct neighbours, and so does the model.
- The per-user curves of `k_vs_t` could be expected to be normalised like the curves of `network_growth`. The code returns raw running counts (`distro.py:122-123`).
- A normalised rating curve could be expected never to fall. With negative ratings it can fall (`Growth.RatingGrowthCanFall`). It is monotone only when no rating is negative (`Growth.RatingGrowthMonotone`).
- The code does not guard its denominators (the `max - min` of each curve in `network_growth`, `distro.py:90` and `93`, and the id columns divided by themselves, `distro.py:89` and `122-123`). The model states them as preconditions.
- `top_5_users_k` returns five users, although the comment above it says ten (`distro.py:98`, `114`).
- `plot_top10` keeps `data[0:9]`, which is nine rows, although the plot is titled "Top 10" (`bitcoin_otc.py:127`, `131`).
- In `k_vs_t`, the "in" series is the rows the user SENDS (`df['SOURCE'] == user`, `distro.py:119`).

## Model

| member | source | states |
|---|---|---|
| Seqs.Unique | distro.py:48 | the distinct values, each once, with the same members as the input; a list that is already distinct is returned unchanged |
| Seqs.UniqueFirstAppearanceOrder | distro.py:101 | `unique()` keeps values in the order of their first occurrence |
| Seqs.SortedDistinct | distro.py:24 | the distinct values in strictly increasing order, with the same members (the groupby keys) |
| Seqs.CountsOfCover | distro.py:24 | with distinct keys that cover every value, the group counts add up to the number of values |
| Seqs.CumSumSteps | distro.py:92 | `np.cumsum` on integers starts at the first value, adds one value per step and ends at the sum of all values |
| Seqs.CumSumRealsSteps | distro.py:89 | `np.cumsum` on reals starts at the first value, adds one value per step and ends at the sum of all values |
| Seqs.SortByScoreDesc | distro.py:113 | the descending sort is ordered by score (non-increasing), is a permutation, and keeps the length |
| Seqs.SortKeepsKeysDistinct | distro.py:113 | sorting keeps user keys distinct |
| Seqs.HeadDominatesRest | distro.py:114 | after a descending sort, no row left out of `head(k)` scores higher than a row kept |
| Seqs.TopK | distro.py:113-114 | `sort_values(ascending=False).head(k)`: min(k, n) rows, non-increasing, taken from the input, distinct keys kept, and every left-out row scores at most any kept row |
| Table.Where | pos_net.py:30 | boolean indexing: a row is selected exactly when it is in the table and satisfies the condition, and the selection is no longer than the table |
| Table.WhereCounts | pos_net.py:30 | each kept row appears as often as in the table, and no other row appears |
| Table.WhereAppend | neg_net.py:17 | selection commutes with splitting the table, so table order is kept |
| Table.SignPartition | neg_net.py:17 | positive, negative and zero rows together are all of the table |
| DiGraphs.AddRowEffect | bitcoin_otc.py:29-33 | one `add_edge` plus the RATING update: existing nodes keep their places and new endpoints are appended; the pair's edge is created or overwritten with this RATING, and every other edge keeps its rating |
| DiGraphs.FromEdgeList | bitcoin_otc.py:29-33 | the nodes are the distinct endpoints in first-appearance order, the edge set is the set of distinct (SOURCE, TARGET) pairs, and the graph is well formed |
| DiGraphs.RatingFromSomeRow | bitcoin_otc.py:32 | every stored RATING is the RATING of a row with that pair |
| DiGraphs.LastRatingWins | bitcoin_otc.py:29-33 | a repeated pair keeps the RATING of its last row |
| DiGraphs.LastKeptRatingWins | pos_net.py:30-35 | in the graph of a filtered table, a pair keeps the RATING of its last selected row |
| DiGraphs.NodesInFirstAppearanceOrder | bitcoin_otc.py:29-33 | nodes come in the order in which they first occur as an endpoint |
| DiGraphs.PairSetAtMostRows | bitcoin_otc.py:29-33 | there are never more distinct pairs than rows |
| DiGraphs.DegreeIsIncidentEdges | bitcoin_otc.py:39-40 | `DiGraphs.Degree` (`net.in_degree` / `net.out_degree`) counts a node's distinct neighbours in that direction; that degree equals its number of incident edges in that direction |
| DiGraphs.DegreeAtMostRowCount | bitcoin_otc.py:39-40 | a degree never exceeds the number of rows it is drawn from |
| DiGraphs.FilteredSubgraph | pos_net.py:30-35 | the graph of a filtered table is a subgraph of the full graph: its edges and nodes are contained in the full graph's, and no degree is larger |
| DiGraphs.DegreeTable | bitcoin_otc.py:39-40 | one row per node, in strictly ascending node order, each holding that node's degree |
| DiGraphs.Handshake | bitcoin_otc.py:39-44 | the in-degree column and the out-degree column each add up to the number of edges |
| DiGraphs.MeanDegree | bitcoin_otc.py:43-44 | `.mean()` of a degree column is None (NaN) exactly for an empty table, and otherwise times the number of rows gives the degree sum |
| DiGraphs.MeanIsEdgesPerNode | bitcoin_otc.py:43-44 | each mean degree is (number of edges) / (number of nodes), and None when there are no nodes |
| DiGraphs.MeansAgree | bitcoin_otc.py:42-44 | the mean in-degree equals the mean out-degree, as the comment there expects |
| DegreeDistribution.Distributions | distro.py:22-38 | one row per distinct degree, in ascending order; n counts the table rows with that degree, so no n is zero; empty exactly for an empty table |
| DegreeDistribution.CountsSumToRows | distro.py:24-27 | the n column adds up to the number of table rows |
| DegreeDistribution.DerivedColumns | distro.py:30-36 | p is n over the total, cdf is the running sum of p, and ccdf is 1 - cdf |
| DegreeDistribution.ProbabilityColumn | distro.py:30 | p[i] = n[i] / rows, and p sums to 1 |
| DegreeDistribution.CumulativeColumns | distro.py:33-36 | the cdf rises, lies in (0, 1] and ends at 1; the ccdf is its complement and ends at 0 |
| Analysis.Analyze | bitcoin_otc.py:29-48 | the computation `main` runs on its table, which `BitcoinOtc.AllRatings` applies to every row, `PosNet.PositiveRatings` to the rows with RATING > 0 and `NegNet.NegativeRatings` to the rows with RATING < 0: the graph's nodes are the table's endpoints and its edges the distinct pairs; each degree table is the graph's degree table, one row per node in ascending node order with that node's degree; each distribution is the distribution of its degree table; both means equal edges per node, so they agree; the means are None exactly for an empty table; and each distribution's counts sum to the number of nodes |
| Analysis.DegreeView | bitcoin_otc.py:39-48 | one direction of the analysis: the degree table, its mean as edges per node, and a distribution whose counts sum to the number of nodes |
| Analysis.DistroKeysAreDegrees | distro.py:24 | the degrees a distribution lists are exactly the degrees that some node has |
| BitcoinOtc.AllRatingsKeepLastRating | bitcoin_otc.py:29-48 | in `BitcoinOtc.AllRatings`, the analysis of all rows (`Analysis.Analyze` on the whole table), a pair rated several times carries its last RATING |
| BitcoinOtc.DegreesAtMostRows | bitcoin_otc.py:39-40 | in-degree is at most the number of rows received, and out-degree at most the number of rows sent |
| BitcoinOtc.EdgesAtMostRows | bitcoin_otc.py:29-33 | the network has at most as many edges as the table has rows |
| PosNet.PositiveNodesAndEdges | pos_net.py:30-51 | of `PosNet.PositiveRatings`, the analysis of the rows with RATING > 0 (`Analysis.Analyze` on them): the nodes are exactly the endpoints of positive rows, and the edges exactly the pairs that some positive row rates |
| PosNet.PositiveEdgesArePositive | pos_net.py:30-35 | every edge of the positive network carries a positive rating |
| PosNet.PositiveRatingCanDiffer | pos_net.py:30-35 | a pair rated 5 and then -3 carries 5 in the positive network and -3 in the network of all ratings |
| PosNet.PositiveKeepsLastPositiveRating | pos_net.py:30-35 | an edge carries the RATING of the last positive row of its pair, whatever non-positive rows follow |
| PosNet.PositiveIsSubgraph | pos_net.py:30-43 | the positive network is a subgraph of the full one, and no degree is larger in it |
| NegNet.NegativeNodesAndEdges | neg_net.py:17-38 | of `NegNet.NegativeRatings`, the analysis of the rows with RATING < 0 (`Analysis.Analyze` on them): the nodes are exactly the endpoints of negative rows, and the edges exactly the pairs that some negative row rates |
| NegNet.NegativeEdgesAreNegative | neg_net.py:17-22 | every edge of the negative network carries a negative rating |
| NegNet.NegativeKeepsLastNegativeRating | neg_net.py:17-22 | an edge carries the RATING of the last negative row of its pair |
| NegNet.NegativeIsSubgraph | neg_net.py:17-30 | the negative network is a subgraph of the full one, and no degree is larger in it |
| NegNet.PairRatedBothWays | neg_net.py:17-22 | a pair rated both positively and negatively is an edge of both signed networks, positive in one and negative in the other |
| NegNet.SignedNetworksCoverAllEdges | neg_net.py:17-22 | when no RATING is zero, the edges of the full network are exactly the union of the positive and the negative networks' edges |
| NegNet.SignedPairs | neg_net.py:17 | when no RATING is zero, the pairs of the table are the pairs of its positive rows together with the pairs of its negative rows |
| OverallRatings.RatingRows | distro.py:51-54 | one row per key, in key order, each holding the summed RATING into that key |
| OverallRatings.OverallRatings | distro.py:42-60 | one row per distinct TARGET, with node ids strictly ascending; a node has a row exactly when it is some row's TARGET; each row holds the summed RATING of the rows into it |
| OverallRatings.RatingIntoExtend | distro.py:51 | `OverallRatings.RatingInto` is the lambda `f`, the summed RATING of the rows into a node; one more row adds its RATING to its own TARGET's sum, and to no other |
| OverallRatings.RatingRowsCover | distro.py:51-54 | with distinct keys that cover every TARGET, the per-key sums add up to the total rating |
| OverallRatings.OverallRatingsSumToTotal | distro.py:42-60 | the overall ratings add up to the sum of all RATINGs: no rating is lost or counted twice |
| OverallRatings.TopRated | bitcoin_otc.py:123-127 | at most nine rows, taken from the overall ratings, ordered by non-increasing rating, one per node; no row left out rates higher than a row kept |
| TopUsers.Top5UsersK | distro.py:99-114 | min(5, number of distinct sources) distinct users, all of them sources, by non-increasing interaction count; no source left out has more interactions than a user returned |
| TopUsers.InteractionCounts | distro.py:103-109 | the loop's list holds, for each user, `TopUsers.Interactions` (distro.py:105-108): the rows that user sends plus the rows it receives |
| TopUsers.TopUsersFromRanking | distro.py:111-114 | ranking the scored users gives the promises of Top5UsersK |
| TopUsers.RankedUsers | distro.py:113-114 | what a ranking of (user, count) rows says about the users it returns |
| Growth.SelfQuotients | distro.py:89 | `x / x` is 1 for every non-zero id |
| Growth.EdgeCounts | distro.py:89 | `np.cumsum(df['SOURCE']/df['SOURCE'])` is 1, 2, ..., n, one per row |
| Growth.CountUp | distro.py:89 | the running sum of ones is 1, 2, ..., n |
| Growth.Normalize | distro.py:90 | min-max normalisation: values in [0, 1], 0 at the minimum, 1 at the maximum, and order kept in both directions |
| Growth.NormalizeMonotone | distro.py:90 | normalising a non-decreasing series gives a non-decreasing series |
| Growth.RatingSumsRunningTotal | distro.py:92 | the running total of the RATINGs starts at the first rating, each entry adds that row's rating to the previous one, and the last entry is the sum of all ratings |
| Growth.NormalizedCountUp | distro.py:89-90 | the running counts 1..n normalise to i / (n - 1) |
| Growth.RatingCurve | distro.py:92-93 | the normalised running rating sum lies in [0, 1], is 0 where the sum is smallest and 1 where it is largest, and orders entries as the sums do |
| Growth.NetworkGrowth | distro.py:85-95 | TIME is passed through; the edge curve is i / (n - 1); the rating curve lies in [0, 1], reaches 0 and 1, and follows the order of the running sums |
| Growth.EdgeGrowthIsLinear | distro.py:89-90 | the edge curve starts at 0, ends at 1 and rises strictly |
| Growth.RatingSumsGrow | distro.py:92 | with no negative rating the running sums never fall |
| Growth.RatingGrowthMonotone | distro.py:92-93 | with no negative rating the normalised rating curve never falls |
| Growth.RatingGrowthCanFall | distro.py:92-93 | with ratings 1, -1, 1 the normalised rating curve falls between its first two entries |
| Growth.KVsT | distro.py:117-128 | the "in" series covers the rows the user sends and the "out" series the rows it receives, each in table order with its TIME; each counter runs 1, 2, ..., m without normalisation |
| Growth.InSeriesIsSentRows | distro.py:119-125 | every "in" time is the TIME of a row the user sent, and the counter ends at the number of rows sent |
| Clustering.AdjacentIffEitherDirection | distro.py:66 | after `to_undirected` (`Clustering.ToUndirected`: same nodes, each edge an unordered link), u and v are linked exactly when an edge runs between them in either direction |
| Clustering.ReverseEdgeCollapses | distro.py:66 | adding the reverse of an existing edge does not change the undirected graph |
| Clustering.NeighbourSeq | distro.py:69 | the neighbours of v other than v itself, each once |
| Clustering.UndirectedNeighbours | distro.py:66-69 | v's undirected neighbours are its predecessors and successors, other than v itself, and there are as many as in that union; `Clustering.UDegree` (`graph.degree()`, distro.py:73) is that number plus two for a self-loop |
| Clustering.LinkedPairs | distro.py:69 | among m nodes, at most m(m-1)/2 pairs are linked |
| Clustering.LinkedPairsCountsPositionPairs | distro.py:69 | the recursive count equals the number of position pairs i < j whose members are linked, each pair counted once |
| Clustering.TrianglesArePairsOfLinkedNeighbours | distro.py:69 | T(v) (`Clustering.Triangles`) is the number of pairs of distinct neighbours of v that are linked |
| Clustering.LocalClustering | distro.py:69 | the coefficient 2T / (d(d - 1)) lies in [0, 1], and is 0 when there are fewer than two neighbours |
| Clustering.SmallDegreeNoClustering | distro.py:69 | a node of undirected degree below two has coefficient 0 |
| Clustering.CcTable | distro.py:72-73 | one row per node, in node order, carrying that node's coefficient and undirected degree; every coefficient lies in [0, 1], and every row of degree below two has coefficient 0 |
| Clustering.GroupCc | distro.py:79 | every entry is the coefficient of a row of that degree; not empty when some node has that degree |
| Clustering.GroupCcComplete | distro.py:79 | every row of that degree contributes its coefficient, and the group has as many entries as there are such rows |
| Clustering.MeanOfFractions | distro.py:80 | the mean of values in [0, 1] lies in [0, 1] |
| Clustering.CcByDegree | distro.py:64-82 | the degrees are distinct, and they are exactly the undirected degrees of the nodes; for each degree, y is the mean coefficient over a non-empty group and lies in [0, 1] |
| Clustering.DegreeColumnIsNodeDegrees | distro.py:73 | the degree column holds exactly the nodes' undirected degrees |
| Clustering.DegreesInFirstAppearanceOrder | distro.py:76 | `pd.unique` lists the degrees in the order of their first occurrence |

## Left out

- CSV reading (`pd.read_csv`) and the conversion of TIME to dates. The model takes the rows as given, with TIME as an integer.
- All plotting: the `plot_*`, `cc_distribution` and `CC_vs_degree` helpers, matplotlib, and the `plot_in_k_users` / `plot_out_k_users` calls from `main`. Of these, only the row selection of `plot_top10` is modelled.
- `all_nets.py` is not part of this model. The `pref_attach` it calls does not exist in `distro.py`.
- The directed clustering averages `avg_pos_CC` (`pos_net.py:46-47`) and `avg_neg_CC` (`neg_net.py:33-34`). These are computed and never used. Directed clustering in NetworkX is a separate algorithm that the model does not include.
- Integer width: RATING sums and cumsums (`distro.py:51`, `92`) and the node ids are numpy int64, modelled as unbounded `int`. The model does not capture int64 wrap-around; with ratings of magnitude at most 10, a sum over n rows stays within 10 n, far below 2^63 for any table that fits in memory.
- Floating point: reals stand for float64, so rounding is not modelled and NaN becomes `None` or a precondition.
- Growth.NetworkGrowth: requires non-zero SOURCE ids, not exactly one row, and running rating sums that are not all equal. Outside these conditions the code divides by zero and yields NaN or inf, which the model does not represent.
- Growth.KVsT: requires a non-zero user id, because the code counts rows with `x / x`.
- Seqs.SortByScoreDesc: pandas' default quicksort leaves the order of equal counts unspecified. The model uses one fixed order, and every contract that uses it speaks only of sortedness, membership and permutation, so it holds for any tie order.
- OverallRatings.OverallRatings: the first `sort_values(by='TARGET')` is not modelled as a reordering of the table. It changes no per-node sum, and the node list is taken sorted directly.
- The `sort_values(by='node')` of the degree tables is modelled as building the table over the sorted node ids (DiGraphs.DegreeTable).
- Degree tables are keyed by node id only. The pandas row index is not modelled.
- Unused imports (`audioop`, `re`, `matplotlib.pyplot.axis`) have no effect.
