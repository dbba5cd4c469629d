# Gocoin in Dafny

A model of the arithmetic and the state of the Gocoin bitcoin client, with proofs that its fast forms compute what the plain
ones mean. `dafny verify dfyconfig.toml` checks all of it. Code that updates things in place is modelled as classes and
methods with loops over the same variables; the plain meaning is a function or predicate beside it.

Five parts, which meet where the program does:

- **secp256k1** (`Words`, `Residues`, `Field`, `PointFormulas`, `Jacobian`, `PointLaws`, `Powers`, `Num`, `Wnaf`, `Groups`, `Ecmult`).
  The field in five 52-bit limbs with its 64-bit words and 128-bit accumulators, Jacobian points, the split of a scalar by the
  endomorphism, the recoding into windows, and the interleaved multiplication. A `Field` variable is five words by value, so
  `Field5x52.Field` holds its limbs in a sequence that its methods replace. Point multiplication is over any abelian group
  whose exponent divides the order and in which the endomorphism multiplies by lambda.
- **The chain and its unspent outputs** (`Utxo`, `CommitTxs`, `UnspentDb`, `UndoFiles`, `BlockDb`, `ChainTree`, `Branches`,
  `Fork`, `ChainCoins`, `Chain`, `Retries`, `LateRefusal`, `Syncing`, `StuckBranch`, `ChainRun`, `Siblings`, `Supply`, `Sums`,
  `Acceptance`, `PathCoins`, `Balance`, `KeptIndex`).
  Checking and applying blocks, undoing them, storing them, moving between branches, the money supply, and the wallet's index of
  balances, which follows the database's notifications. The plain meaning of a chain is the fold of its blocks over a map from
  outpoint to coin, and `PathCoins` reads the same coins off the blocks without it. A move is told as a list of `Chain.Round`s, its attempts.
- **The memory pool** (`Mempool`, `Relatives`, `TxSort`, `TxPackages`, `FeeOrders`, `TxAccept`, `PoolCoins`, `PoolRun`, `Seqs`). `Pool.Valid` is what
  `MempoolCheck` looks for: `SpentOutputs` is the inverse of the inputs, `MemInputs` and `MemInputCnt` mark the inputs that come from the
  pool, and the size is the sum of sizes.
- **Encodings and consensus rules** (`VarInt`, `Scripts`, `UtxoCodec`, `Merkle`, `MedianTime`, `MultiSig`). The plain and the
  compressed record format are one codec with two settings; rows cite the compressed one, and `lib/utxo/unspent_recu.go` has
  the plain one with the same names.
- **The peer stream** (`PeerStream`). Sender, writing thread and message parser as steps that may come in any order.

What the proofs take for granted, each a `requires` or a parameter: the 8-byte keys made of transaction ids and outpoints are
unique; a block's transaction ids are new where its node is entered into the tree (BIP 30), and its sums fit 64 bits, for
`ChainRun.Run` on the path that the headers give it; a block hash stands for one list of transactions, and the files of the block store return what
was put in; script checks, sigop counts, proof of work and the source of trusted transactions may be anything; spending in the pool is acyclic; a transaction coming into the
pool has different inputs, is not in it, and nothing in the pool spends from it yet; where a compressed key is completed, the
field's square root finds a root of every residue that has one, and that one and its negative are all (`Scripts.SquareRoots`).

Where the code does something else than one might think, the code is followed:

- `ecmult_wnaf` recodes every odd integer without loss exactly for windows of 2 to 64 bits (`Wnaf.WindowExact`): the mask of
  `rsh_x` and the word it returns have 64 bits. The program uses 5 and 14.
- `CommitBlock` takes a refused head block out of the tree, but leaves its children in the block index
  (`Chain.Chain.CommitBlock`, `Chain.Chain.Discard`); the index is exact afterwards if and only if there were none.
- The genesis block's data is never stored, so `MoveToBlock` refuses every move whose highest common block is the genesis block
  (`Fork.FindFork`, `Chain.Chain.AllBlockedAtRoot`).
- `MoveToBlock` can panic in two ways, and `Chain.Chain.MoveToBlock` says exactly when: the way down of its last attempt is open,
  and either an undo file on it is missing, or the block that stops the way up cannot be taken away.
  - `ParseTillBlock` keeps undo data by the height of its target, so a block refused late in a long catch-up can leave the chain
    where the retry needs an undo file that was never written. `Retries.RetryLacks` says for which heights,
    `LateRefusal.Panics` builds a chain in which it happens.
  - `CommitBlock` keeps it by the highest known header, so blocks connected while that is far above have no undo file at all, and
    a rival branch that gets ahead of them makes the first attempt panic (`Syncing.Panics`).
  - `DeleteBranch` calls `BlockInvalid` for the refused block, and `delAllChildren` for each block once per child. A block in the
    file is made trusted by the first call, and a trusted one makes it panic. `Retries.StickingBlocks` says for which branches,
    `StuckBranch.Panics` builds a chain in which it happens: any refused block that is in the file and has a child will do.
  - But for ties between farthest nodes, the state before the call settles it all (`Retries.Determined`).
- For the same reason a refused block without children that is in the file stays in the store as trusted; should it come again,
  its scripts are not looked at (`Retries.ComesBackTrusted`).
- A header whose parent is above a refused block enters the index, but not the tree (`Chain.Chain.AcceptHeader`).
- An uncompressed key may have coordinates of up to 256 bits. One with x or y not below P is valid but comes back changed from
  the compressed record format (`Scripts.KeyRoundTrip`, `Scripts.LargeX`, `Scripts.LargeY`); all other scripts come back.
- A transaction may replace one of its own parents: it then stays in the pool with an input marked as coming from there that
  does not (`TxAccept.HandleNetTx`, `TxAccept.OwnParent`).
- `Double` does not touch the coordinates when the result is infinity, so an infinite point keeps old limbs.
- The tie-break by hash of the sorter compares a hash with itself, so equal fees with equally many parents come in any order.


## Model

| member | source | states |
|---|---|---|
| `Field5x52.Field.SetInt` | lib/secp256k1/field_5x52.go:36-42 | the limbs stand for the given word; magnitude 1 for a word of 53 bits at most |
| `Field5x52.Field.IsZero` | lib/secp256k1/field_5x52.go:32-34 | on canonical limbs, exactly when the residue is 0 |
| `Field5x52.Field.Normalize` | lib/secp256k1/field_5x52.go:44-95 | from any limbs of at most 2^63 to the canonical limbs (52, 52, 52, 52 and 48 bits, value below P) of the same residue |
| `Field5x52.Field.CarryPass` | lib/secp256k1/field_5x52.go:57-68 | one pass moves the carries up without changing the value, the part above bit 256 coming back multiplied by 2^32+977 |
| `Field5x52.Field.FinalPass` | lib/secp256k1/field_5x52.go:70-94 | the last reduction: at most one P is left, and is taken away exactly when it is there |
| `Field5x52.ComparedWithP` | lib/secp256k1/field_5x52.go:70-74 | the limb-by-limb test for a further subtraction holds if and only if the value is at least P, and the value is below 2P |
| `Field5x52.CanonicalUnique` | lib/secp256k1/field_5x52.go:132-134 | canonical limbs are equal if and only if the residues are: Equals decides equality modulo P after Normalize |
| `Field5x52.Field.Equals` | lib/secp256k1/field_5x52.go:132-134 | on canonical limbs, equal if and only if the residues are equal |
| `Field5x52.Field.SetAdd` | lib/secp256k1/field_5x52.go:136-142 | the values add up exactly (no limb overflows) and so do the magnitudes |
| `Field5x52.Field.MulInt` | lib/secp256k1/field_5x52.go:144-150 | value and magnitude are multiplied exactly |
| `Field5x52.Field.Negate` | lib/secp256k1/field_5x52.go:152-158 | no limb underflows for magnitude m; the value becomes 2(m+1)P minus the old one, magnitude m+1 |
| `Field5x52.Field.Mul` | lib/secp256k1/field_5x52.go:160-416 | for all limbs within 2^56 (2^52 for the last) the result is congruent to the product modulo P with magnitude 1, also when r is either operand; no 128-bit accumulator loses a carry |
| `Field5x52.Field.MulTop` | lib/secp256k1/field_5x52.go:180-216 | columns 3 and 8 in 64- and 128-bit arithmetic: an exact equation between columns, carries and output limb |
| `Field5x52.Field.MulFour` | lib/secp256k1/field_5x52.go:218-261 | the same for column 4, with what is above bit 256 set aside |
| `Field5x52.Field.MulLow` | lib/secp256k1/field_5x52.go:262-310 | the same for columns 5 and 0 |
| `Field5x52.Field.MulSixOne` | lib/secp256k1/field_5x52.go:311-354 | the same for columns 6 and 1 |
| `Field5x52.Field.MulTwoSeven` | lib/secp256k1/field_5x52.go:355-396 | the same for columns 2 and 7 |
| `Field5x52.Field.MulLast` | lib/secp256k1/field_5x52.go:397-416 | the same for the last carries into limbs 3 and 4, which end in magnitude 1 |
| `Field5x52.ProductColumns` | lib/secp256k1/field_5x52.go:174-179 | the nine columns, at their places, add up to the product of the two values |
| `Field5x52.Combine` | lib/secp256k1/field_5x52.go:199-416 | any limbs that satisfy the stages' equations stand for the product modulo P |
| `Field5x52.Field.Sqr` | lib/secp256k1/field_5x52.go:418-629 | congruent to the square modulo P with magnitude 1, also in place, by the doubled-term schedule |
| `Field5x52.Field.SqrTop` | lib/secp256k1/field_5x52.go:438-470 | columns 3 and 8 of the square meet the same equation as in Mul |
| `Field5x52.Field.SqrSixOne` | lib/secp256k1/field_5x52.go:548-581 | columns 6 and 1 of the square meet the same equation as in Mul |
| `Jacobian.XYZ.Double` | lib/secp256k1/xyz.go:219-250 | keeps X, Y, Z within magnitudes 6, 4, 2 and meets the doubling formula or gives infinity, exactly when the point is infinite or its Y is 0 modulo P; also in place |
| `Jacobian.XYZ.Add` | lib/secp256k1/xyz.go:314-369 | keeps the magnitudes; gives the other point, the doubled point, infinity or the addition formula, each in exactly its case; r may be either operand |
| `Jacobian.XYZ.AddXY` | lib/secp256k1/xyz.go:253-311 | the same for an affine second point |
| `Jacobian.XYZ.Chord` | lib/secp256k1/xyz.go:289-311 | the shared last steps: Negate never underflows, every Mul and Sqr stays in bounds, and the coordinates meet the addition formula |
| `Jacobian.XYZ.SetXY` | lib/secp256k1/xyz.go:25-30 | the affine point as a Jacobian one with denominator 1 |
| `Jacobian.XYZ.Neg` | lib/secp256k1/xyz.go:204-211 | same abscissa and denominator, opposite ordinate, magnitudes kept |
| `PointFormulas.TangentLaw` | lib/secp256k1/xyz.go:219-250 | the doubling formula is the tangent law of the affine curve, for the slope l with 2yl = 3x^2 |
| `PointFormulas.ChordLaw` | lib/secp256k1/xyz.go:314-369 | the addition formula is the chord law of the affine curve, for the slope l with (x2-x1)l = y2-y1 |
| `PointFormulas.DoubleSteps` | lib/secp256k1/xyz.go:219-250 | the sequence of field operations of Double adds up to the formula |
| `PointFormulas.AddSteps` | lib/secp256k1/xyz.go:289-311 | the sequence of field operations of Add and AddXY adds up to the formula |
| `PointLaws.InfinityNeutral` | lib/secp256k1/xyz.go:253-264 | infinity plus a point, or a point plus infinity, is that point |
| `PointLaws.InfiniteSum` | lib/secp256k1/xyz.go:336-345 | two points add up to infinity if and only if they have one abscissa, and either different ordinates or both 0 |
| `PointLaws.OppositeSum` | lib/secp256k1/xyz.go:336-345 | (x, y) plus (x, -y) is infinity, whatever the denominators |
| `PointLaws.NegatesSum` | lib/secp256k1/xyz.go:204-211 | a point plus what Neg makes of it is infinity |
| `PointLaws.SelfSum` | lib/secp256k1/xyz.go:336-341 | a point added to itself is what Double gives, also where the two have different denominators |
| `PointLaws.SameDouble` | lib/secp256k1/xyz.go:219-250 | Double depends on the affine point alone |
| `PointLaws.Commutes` | lib/secp256k1/xyz.go:314-369 | the sums in the two orders are the same point |
| `PointLaws.ChordPoint` | lib/secp256k1/xyz.go:314-369 | two points whose abscissas have an invertible difference add up to the third point on their chord, mirrored, with an invertible denominator again |
| `PointLaws.TangentPoint` | lib/secp256k1/xyz.go:219-250 | twice a point with an invertible 2y is where its tangent meets the curve again, mirrored |
| `PointLaws.OnePoint` | lib/secp256k1/xyz.go:25-30 | a point with an invertible denominator has one pair of affine coordinates modulo P |
| `Num.Number.SplitExp` | lib/secp256k1/num.go:47-68 | for every integer a: r1 + r2*lambda = a modulo the group order and both halves are below 2^128 in absolute value; r1 may be a itself |
| `Num.HalvesBounded` | lib/secp256k1/num.go:47-68 | the rounded quotients leave both halves below 2^128 |
| `Num.HalvesCongruent` | lib/secp256k1/num.go:47-68 | the halves recombine to a whatever the quotients are: the constants span the lattice of lambda |
| `Num.Number.Split` | lib/secp256k1/num.go:70-74 | the low bits and the rest add up to the old value, for negative numbers too; rl may be the number itself |
| `Wnaf.EcmultWnaf` | lib/secp256k1/xyz.go:88-114 | for every a of 128 bits and a sign (in general, one bit less than there are slots) and 2 <= w <= 64: it ends, stays in the slots, its digits weighted by powers of two are a, each is 0 or odd and below 2^(w-1), and non-zero digits are w apart |
| `Wnaf.WindowExact` | lib/secp256k1/xyz.go:88-114 | a step is lossless for all odd integers if and only if 2 <= w <= 64: the mask of rsh_x is built in 64 bits |
| `Wnaf.WindowBeyond64` | lib/secp256k1/xyz.go:88-114 | for every w > 64 the step loses a bit of 2^64+1 |
| `Wnaf.SlotLeft` | lib/secp256k1/xyz.go:88-114 | as long as something is left to recode there is a slot for it |
| `Ecmult.Precomp` | lib/secp256k1/xyz.go:76-85 | the table of odd multiples x, 3x, 5x, ... |
| `Ecmult.AddDigit` | lib/secp256k1/xyz.go:161-199 | a digit of either sign indexes the table within bounds and adds that many times the table's point |
| `Ecmult.Interleave` | lib/secp256k1/xyz.go:141-201 | the doubling loop over four digit streams of unequal length gives the sum of all digits weighted by powers of two |
| `Ecmult.ECmult` | lib/secp256k1/xyz.go:117-201 | na*A + ng*G in any abelian group with the order and the endomorphism of the curve, for every integer na and every ng of 256 bits; every index is in bounds |
| `Ecmult.Recombined` | lib/secp256k1/xyz.go:117-135 | the four partial multiples are na*A + ng*G |
| `Ecmult.StreamStep` | lib/secp256k1/xyz.go:158-200 | doubling and adding one digit of each stream moves the whole sum down one position |
| `Ecmult.ECmultGen` | lib/secp256k1/xyz.go:373-381 | 64 tables of 16 points and the correction fin give (a mod 2^256)*G for every integer a |
| `Groups.MulMul` | lib/secp256k1/xyz.go:117-201 | multiples of multiples, for integers of any sign |
| `Supply.RewardsBounded` | lib/btc/block.go:208-210 | the subsidies of any number of blocks add up to less than 21,000,000 * 10^8 |
| `Supply.AheadNext` | lib/btc/block.go:208-210 | what a block may mint is covered by what the halving schedule still had ahead |
| `Supply.Halving` | lib/btc/block.go:208-210 | 5000000000 at first, and half of what it was, rounded down, 210000 blocks later |
| `CommitTxs.TakeInput` | lib/chain/chain_accept.go:139-228 | an input is taken if and only if its coin is unspent by the block so far and mature; marks, undo data and the block's own outputs then describe the coins without it |
| `CommitTxs.TakeInputs` | lib/chain/chain_accept.go:139-228 | the inputs of a transaction, each spent once |
| `CommitTxs.OneTx` | lib/chain/chain_accept.go:122-276 | one transaction is accepted if and only if its inputs can be spent and cover its outputs; the state then describes the coins after it |
| `CommitTxs.CommitTxs` | lib/chain/chain_accept.go:108-319 | a block is accepted if and only if, on the plain map of coins, each transaction finds its inputs, overspends nothing, the coinbase takes no more than subsidy and fees, scripts pass unless the block is trusted, and sigops stay within the limit; the changes then lead from the records to the coins after the block |
| `CommitTxs.CollectAdds` | lib/chain/chain_accept.go:297-316 | just the records of the block's outputs that the block itself does not spend |
| `CommitTxs.SumsNext` | lib/chain/chain_accept.go:256-270 | no running 64-bit sum wraps where the block's sums fit 64 bits |
| `Acceptance.AcceptedMeans` | lib/chain/chain_accept.go:108-295 | a block with new ids is accepted if and only if the coinbase's script is right, every other transaction finds its inputs among the coins its predecessors leave, spends no more than them and is signed (unless the block is trusted), the total value of all coins grows by the subsidy at most, and the sigops stay within the limit |
| `Acceptance.InputsAre` | lib/chain/chain_accept.go:139-228 | the input loop goes through if and only if the inputs are different coins, those of a coinbase a hundred blocks old |
| `Acceptance.CoinsShown` | lib/chain/chain_accept.go:230-241 | the script checks see the coin of each input, in the order of the inputs |
| `CommitTxs.MarkUndoFits` | lib/chain/chain_accept.go:187-210 | spending one more output of a record keeps the undo data equal to what the marks take away |
| `Utxo.CoinsDetermineRecords` | lib/utxo/unspent_db.go:526-539 | two record maps without dead records that give the same coins are equal |
| `UnspentDb.UnspentDB.Commit` | lib/utxo/unspent_db.go:582-624 | for every order in which the goroutines take their steps the records end up the same: added ones stored, deleted outputs gone, empty records removed; the notifications lead from the old coins to the new ones |
| `UnspentDb.UnspentDB.CommitBlockTxs` | lib/utxo/unspent_db.go:369-416 | the same, with the undo file written, the one falling out of the window removed, and the head set |
| `UnspentDb.UnspentDB.Del` | lib/utxo/unspent_db.go:551-580 | one record without the marked outputs, or gone; a missing record is ignored |
| `UnspentDb.UnspentDB.UndoBlockTxs` | lib/utxo/unspent_db.go:418-479 | after a commit with undo data: exactly the records from before the block, whatever was partly spent, or made and spent inside the block; every notification tells something new |
| `UnspentDb.MergeRestores` | lib/utxo/unspent_db.go:418-479 | what was marked and what was left of a record make up the record |
| `UnspentDb.PutBackStep` | lib/utxo/unspent_db.go:418-479 | putting one undo record back restores that record and notifies just the outputs that come back |
| `UnspentDb.RunSuffix` | lib/utxo/unspent_db.go:418-479 | a run of notifications can be followed from any point on |
| `UnspentDb.ReplayThen` | lib/utxo/unspent_db.go:582-624 | runs of notifications can be joined |
| `UnspentDb.TellAdd` | lib/utxo/unspent_db.go:582-624 | an addition is told once and tells something new, at any point of the schedule |
| `ChainTree.BlockTreeNode.DelChild` | lib/chain/chain_tree.go:322-335 | the child goes and the others stay; the panic, unless exactly one child went, is in the body and out of reach where the child is listed once |
| `ChainTree.FindFarthestNode` | lib/chain/chain_tree.go:150-166 | a highest node of the subtree, and its distance |
| `ChainTree.FindPathTo` | lib/chain/chain_tree.go:169-193 | the child on the way to a descendant, nothing at the descendant itself; both panics are in the body and out of reach |
| `ChainTree.AncestorsLinear` | lib/chain/chain_tree.go:169-193 | two ancestors of a node lie on one line |
| `Fork.FindFork` | lib/chain/chain_tree.go:223-258 | the walk up finds the highest common block, or stops if and only if a block on the way lacks data or the genesis block is in the way |
| `Fork.HighestCommonExists` | lib/chain/chain_tree.go:223-258 | any two nodes have a highest common ancestor |
| `Fork.HighestCommonUnique` | lib/chain/chain_tree.go:223-258 | and only one |
| `ChainCoins.CollectedAgrees` | lib/chain/chain_accept.go:297-316 | collected changes, once applied, give the records of the coins after the block |
| `ChainCoins.CollectedCanUndo` | lib/chain/chain_accept.go:108-319 | what commitTxs collects meets what undoing demands |
| `ChainCoins.Committed` | lib/utxo/unspent_db.go:369-416 | committing a block keeps the database at its node: records, height and every undo file back to the window's end |
| `ChainCoins.RecordsAtNode` | lib/utxo/unspent_db.go:369-479 | the records depend on the node alone, not on the way the chain got there |
| `Chain.Chain.constructor` | lib/chain/chain.go:56-131 | a new chain meets the invariant |
| `Chain.Chain.SetIsFold` | lib/chain/chain_accept.go:60-105 | at any time the records are the fold of the blocks on the path from the root to the last block, and no other records are |
| `PathCoins.UnspentAt` | lib/chain/chain_accept.go:272-316 | an outpoint is unspent at a node if and only if a transaction on the node's path has that output and no later input on the path names it |
| `PathCoins.CoinAt` | lib/chain/chain_accept.go:272-316 | its coin has the value and the script of that very output, the height of its block and the number of outputs of its transaction, and is a coinbase's exactly for the block's first transaction |
| `PathCoins.KeptIsLast` | lib/chain/chain_accept.go:40-58 | where ids are new, an output still unspent has not been made again since |
| `PathCoins.HeadTells` | lib/chain/chain_accept.go:272-316 | the records of a chain in any state it can reach have a coin for exactly the outputs on the path to the last block that no later input names, with their values, scripts, heights and coinbase marks |
| `PathCoins.SpentOnce` | lib/chain/chain_accept.go:139-228 | each input of an accepted block spends an output made before it on the path that no input in between names, and one of a coinbase only a hundred blocks later |
| `Chain.Chain.ToldSince` | lib/utxo/unspent_db.go:418-479 | who starts listening at any time and hears every notification since, through any commits, undos and reorganisations, has the coins of the last block |
| `KeptIndex.Compare` | client/wallet/onoff.go:42-78 | an index that was right at any time and has followed every notification since, through any commits, undos and reorganisations, has the same addresses, listings and values as one made now from the records alone, and both are what the coins of the last block call for |
| `Chain.Chain.SupplyBounded` | lib/chain/chain_accept.go:108-290 | at any time all unspent outputs together are worth no more than the subsidies so far |
| `Supply.BlockRaisesTotal` | lib/chain/chain_accept.go:108-290 | an accepted block raises the total by its subsidy at most |
| `Supply.TotalAfter` | lib/chain/chain_accept.go:108-290 | a block with new ids changes the total by exactly what its outputs are worth less what its inputs are |
| `Supply.TotalSpent` | lib/chain/chain_accept.go:139-228 | spending takes away exactly what is spent: no outpoint counts twice |
| `Supply.SupplyAt` | lib/chain/chain_accept.go:108-290 | the total at any accepted node is bounded by the subsidies on its path |
| `Chain.Chain.AcceptHeader` | lib/chain/chain_accept.go:40-58 | one more child under the known parent, indexed; refused if and only if the parent is unknown; a new leaf of the tree if the parent is in it, and otherwise, above a refused block, the tree does not change |
| `Chain.Chain.ProcessBlockTransactions` | lib/chain/chain_accept.go:18-25 | accepts exactly the valid blocks on top of the last one; undo data is kept exactly within the window of the last known height |
| `Chain.Chain.CommitBlock` | lib/chain/chain_accept.go:60-105 | on top of the head: accepted if and only if valid, with its undo file exactly within the window; a refused block leaves database, store and head alone and leaves the tree with all above it (its children stay in the index: exact if and only if it had none); elsewhere: stored, which may have the whole store written to the file, and moved to if it has more work, with the attempts and the panic condition of MoveToBlock, an error if and only if the head is not the block afterwards, nothing else changed where the way is blocked, and no error for good blocks with data and undo files; only bad blocks and what is above them ever leave the tree |
| `Chain.Chain.MoveToBlock` | lib/chain/chain_tree.go:223-267 | goes down to the highest common block and not below it before going up; the attempts it makes, each after the first at a farthest node left once a block has stopped the one before, with tree, undo files and store as it finds them; it panics if and only if the last of them has an open way down and either not all undo files for it, or in its way a block that does not pass and cannot be taken away (BlockInvalid panics); otherwise that one is refused or has nothing in its way; with data, undo files and good blocks it ends at the target; terminates with data everywhere |
| `Chain.Chain.MoveDown` | lib/chain/chain_tree.go:223-266 | the undoing half: it gets to the highest common block if and only if the way is not blocked and all undo files above it are there, and panics if and only if it is not blocked and one is missing |
| `Chain.Chain.UndoTo` | lib/chain/chain_tree.go:260-266 | one block at a time down to the fork; not aborted, it gets there if and only if every undo file above the fork is there, and panics otherwise; just those files go |
| `Chain.Chain.ParseTillBlock` | lib/chain/chain_tree.go:28-121 | connects up to the first block that has no data or fails, which takes away just its branch, or panics exactly if it cannot; then the attempts that follow, as in MoveToBlock; reaches end if the blocks on the way are good, and the retries end |
| `Chain.Chain.Retry` | lib/chain/chain_tree.go:116-120 | the move to a farthest node, which on its end is where the head stands, or cannot be reached because only the genesis block is shared |
| `Chain.Chain.ConnectTo` | lib/chain/chain_tree.go:44-113 | the connecting loop: connected up to end, or stopped at the first node of the way without data or with a bad block, whose branch is then gone, or which panics exactly if it cannot be taken away; which undo files there are afterwards, and the store exactly: connected blocks trusted, the branch called invalid |
| `Chain.Chain.ConnectNext` | lib/chain/chain_tree.go:54-108 | one block: connected, and trusted from then on, if and only if it has data and is valid on top of the head; its undo file is written exactly if it is within the window of end, and the one falling out of the window is removed; refused, it leaves the database and the head alone, and taking its branch away panics exactly as DeleteBranch says |
| `Chain.Chain.EndsHasAll` | lib/chain/chain_tree.go:223-267 | an attempt that is refused or goes through neither lacks an undo file nor has a block in its way |
| `UndoFiles.FilesUpAre` | lib/utxo/unspent_db.go:369-416 | after a walk up, a height has an undo file if and only if it was within the window of the target or had one before, and has not fallen out of the window behind the head |
| `UndoFiles.RetryHasUndo` | lib/chain/chain_tree.go:116-120 | whether the way back down after a walk up has all its undo files, in terms of heights and of the files from before |
| `Retries.RetryLacks` | lib/chain/chain_tree.go:93-120 | after a refused block the next attempt lacks undo files if and only if a newly connected block is too far below the first target, or an older one had no file or has lost it |
| `Retries.StickingBlocks` | lib/chain/chain_tree.go:296-316 | a refused block cannot be taken away if and only if it is trusted, or in the file with a child, or some block above it is trusted with a child or in the file with two |
| `Retries.ComesBackTrusted` | lib/chain/blockdb.go:410-447 | a refused block in the file stays in the store as trusted: coming again it passes exactly if it does without its scripts being looked at |
| `Retries.NoRetry` | lib/chain/chain_tree.go:223-267 | a move that is refused, lacks files, has nothing in its way or something that cannot be taken away is over at once, and panics if and only if it is not refused, and lacks files or has that in its way |
| `Retries.StopGoesOn` | lib/chain/chain_tree.go:93-120 | an attempt stopped by a block that can be taken away is not the last one |
| `Retries.Determined` | lib/chain/chain_tree.go:93-120 | but for ties between farthest nodes, the state before a move, with the store and what of it is in the file, settles its attempts and its outcome |
| `LateRefusal.SecondPanics` | lib/chain/chain_tree.go:93-120 | a chain with a side branch of height 3 and a main branch to height 2563 whose third block is bad and not in the file yet: the move to the main branch panics in its second attempt, at a missing file for height 2 |
| `LateRefusal.Panics` | lib/chain/chain_accept.go:39-105 | from an empty directory, AcceptHeader, CommitBlock and Idle alone bring the chain to that panic, with as much work in every block |
| `LateRefusal.WayShut` | lib/chain/chain_tree.go:223-258 | data arriving out of order: the way to a higher block is blocked while data is missing below it |
| `Syncing.NoWayBack` | lib/chain/chain_tree.go:260-266 | with no undo files, a move away from a branch of two blocks lacks one |
| `Syncing.Panics` | lib/chain/chain_accept.go:27-105 | from an empty directory, in order of arrival: two blocks connected more than 2560 below the highest known header have no undo file, and a rival branch that gets ahead makes the first attempt panic |
| `StuckBranch.IsStuck` | lib/chain/chain_tree.go:93-98 | a refused block in the file with a child stops the move to its branch and cannot be taken away |
| `StuckBranch.Panics` | lib/chain/chain_accept.go:39-105 | from an empty directory, four headers and blocks and one idle time bring the chain to the panic in BlockInvalid |
| `Chain.Chain.AllBlockedAtRoot` | lib/chain/chain_tree.go:223-258 | with data everywhere, a move is refused only where the genesis block is the highest common block |
| `Chain.Chain.UndoLastBlock` | lib/chain/chain_tree.go:269-293 | the head goes to its parent with the records of that node, and the block's undo file goes, if and only if it is not the genesis block and that file is there |
| `Chain.Chain.DeleteBranch` | lib/chain/chain_tree.go:308-316 | panics if and only if some block of the branch is trusted and called invalid, or is in the file and called so twice, the lowest block being called for once and every block once per child; otherwise the node and all below it leave tree and index, nothing else does, and of the blocks called for those in the file are trusted now and the others gone from the store |
| `Chain.Chain.DelAllChildren` | lib/chain/chain_tree.go:296-306 | the same for what is below the node: one call of BlockInvalid on the parent per child; all below the node leave the index |
| `Branches.HarmlessNext` | lib/chain/chain_tree.go:296-306 | one child more: the call for the parent panics exactly if its calls so far and this one do |
| `Branches.SameBelow` | lib/chain/chain_tree.go:296-306 | what has been called for before makes no difference below the next child |
| `Branches.AllHarmless` | lib/chain/chain_tree.go:296-306 | all children dealt with without a panic: no block of the branch has calls that panic, and exactly those with a child have been called for |
| `Branches.TopFirst` | lib/chain/chain_tree.go:308-316 | the call for the lowest block itself, made first, counts as one more |
| `Chain.Chain.Discard` | lib/chain/chain_accept.go:72-78 | what a refused head block leaves: its children dangle in the index if it has any |
| `Chain.Chain.OnActiveBranch` | lib/chain/chain_tree.go:209-220 | true if and only if the node lies on the way from the head to the genesis block |
| `BlockDb.BlockDB.BlockAdd` | lib/chain/blockdb.go:201-241 | a stored block is kept and can only become trusted; a new one is queued, and everything is written to the file exactly if the queue or its data is full then; the queue never overflows |
| `BlockDb.BlockDB.WriteAll` | lib/chain/blockdb.go:243-254 | afterwards every stored block is in the file; something was written if and only if something was queued |
| `BlockDb.BlockDB.WriteOne` | lib/chain/blockdb.go:302-393 | the first entry of the queue; its block is in the file afterwards if it is still stored; whatever is not in the file stays queued |
| `BlockDb.BlockDB.BlockInvalid` | lib/chain/blockdb.go:395-419 | panics if and only if the block is stored and trusted; otherwise one in the file becomes trusted, one not there yet is forgotten |
| `BlockDb.BlockDB.BlockTrusted` | lib/chain/blockdb.go:421-435 | a stored block becomes trusted |
| `BlockDb.MarkedTwice` | lib/chain/blockdb.go:395-419 | calls for two sets of blocks come to calls for both |
| `BlockDb.FatalNext` | lib/chain/blockdb.go:395-419 | how many calls for one block panic: the first if it is trusted, the second if it is in the file |
| `ChainRun.Run` | lib/chain/chain_accept.go:27-105 | any sequence of headers, data, blocks only stored, deleted branches, undone blocks and idle times keeps the invariant, up to a call that panics; all it asks is that a header names its parent, a hash stands for one block, and that no block, on its own path, brings ids still in use or sums of more than 64 bits; nodes that have left the tree are skipped |
| `ChainRun.InTree` | lib/chain/chain_tree.go:295-316 | a node the index lists is in the tree if and only if all nodes below it are listed |
| `ChainRun.AlongPath` | lib/chain/chain_accept.go:40-58 | the coins at a node depend on the hashes on its path alone |
| `ChainRun.PathLinked` | lib/chain/chain_accept.go:40-58 | the path to a node of the tree is linked by the parents that the headers name |
| `Siblings.SiblingsAreFair` | lib/chain/chain_accept.go:40-58 | two rival blocks with a transaction in common, which has outputs, meet what the run asks |
| `Siblings.OverToRival` | lib/chain/chain_accept.go:27-105 | a run that goes from the one to the other may be made |
| `Chain.Chain.BlockAdd` | client/main.go:81-104 | storing a block alone, as is done before it is committed, keeps the invariant |
| `Balance.OneAllAddrBal.List` | client/wallet/db.go:98-118 | the entry lists the coins it did and the new one, across the switch from list to map |
| `Balance.OneAllAddrBal.Unlist` | client/wallet/db.go:170-223 | the entry loses the coin, and is to be deleted exactly when it was the last; the outpoint is always found |
| `Balance.Balances.NewUTXO` | client/wallet/db.go:42-119 | the index of the coins with the record's added |
| `Balance.Balances.AllDelUtxos` | client/wallet/db.go:121-224 | the index of the coins without the marked ones |
| `Balance.Balances.Tell` | client/wallet/db.go:227-239 | one notification keeps the index exact |
| `Balance.Balances.Follow` | client/wallet/db.go:227-239 | any run of notifications keeps the index exact: an outpoint is listed under its address if and only if it is unspent, of a tracked script and not below the minimum, and Value is their sum |
| `Balance.AddressPays` | client/wallet/db.go:57-92 | an output is listed under an address if and only if its script is, byte for byte, the one of the five forms that pays to it |
| `Balance.OneScriptEach` | client/wallet/db.go:57-92 | different scripts are never listed under one address |
| `Balance.CoinsPay` | client/wallet/db.go:51-92 | an address lists exactly the coins that are not below the minimum and whose script pays to it |
| `Balance.Balances.LoadBalance` | client/wallet/onoff.go:42-78 | the index made from the records alone is exact, for any order of records; given up if and only if the tick says so |
| `Balance.IndexIsDetermined` | client/wallet/onoff.go:42-78 | the kept index and one made from scratch have the same addresses, listings and values |
| `Balance.FirstMarkedNext` | client/wallet/db.go:129-139 | the marked outputs of a record, one at a time |
| `Mempool.Pool.Delete` | client/network/txpool_core.go:587-611 | keeps MempoolCheck's invariant; with children exactly the family of descendants leaves, without them the one transaction |
| `Mempool.Pool.Remove` | client/network/txpool_core.go:600-611 | the one transaction leaves all three views |
| `Mempool.OneTxToSend.IIdx` | client/network/txpool_mine.go:12-19 | an input that spends the outpoint, or none if and only if there is none |
| `Mempool.OneTxToSend.Unmark` | client/network/txpool_mine.go:22-54 | clears one flag and counts it off; both complaints are out of reach |
| `Mempool.Pool.UnMarkChildrenForMem` | client/network/txpool_mine.go:22-54 | no child counts the mined transaction's outputs as unconfirmed any more |
| `Mempool.Pool.TxMined` | client/network/txpool_mine.go:57-100 | the transaction leaves and its children stay; whoever spends one of its inputs leaves with all descendants, and nobody else; the invariant is kept |
| `Mempool.Pool.BlockMined` | client/network/txpool_mine.go:103-125 | the same for all of a block but its coinbase, in order |
| `Mempool.NoneMined` | client/network/txpool_mine.go:103-125 | what is left neither is in the block nor spends what the block spends |
| `Mempool.OnlyMinedLeave` | client/network/txpool_mine.go:103-125 | whatever a block drives out of the pool is in it, or descends from one that spends what one of the block's transactions spends |
| `Mempool.SparedNext` | client/network/txpool_mine.go:77-96 | taking away the present spender's family, input by input, takes away just what conflicted in the beginning |
| `Mempool.ShedAll` | client/network/txpool_core.go:587-611 | once no child is left, what has gone with a transaction is its family without it |
| `Mempool.SpentWithout` | client/network/txpool_sort.go:264-347 | SpentOutputs stays the inverse of the pool's inputs when a transaction leaves |
| `Mempool.CountClear` | client/network/txpool_sort.go:264-347 | clearing a set flag takes one off the count of flags |
| `Relatives.GetChildren` | client/network/txpool_sort.go:350-370 | exactly the transactions that spend from it, each once |
| `Relatives.GetAllChildren` | client/network/txpool_sort.go:411-432 | exactly its descendants without itself, each once |
| `Relatives.GetAllParentsExcept` | client/network/txpool_sort.go:462-485 | exactly the ancestors reached without going through the excepted one, each once and behind its parents |
| `Relatives.DoOne` | client/network/txpool_sort.go:463-484 | the recursion: what is listed stays listed, in order, and never start itself |
| `Relatives.GetItWithAllChildren` | client/network/txpool_sort.go:375-407 | the transaction first, closed under children, the others behind their parents, and nothing that is not connected with it; for one without pool parents exactly its component |
| `Relatives.ComponentFound` | client/network/txpool_sort.go:375-407 | such a list is the whole component of its head |
| `TxSort.MissingParents` | client/network/txpool_sort.go:52-77 | exactly the pool parents that are not in yet; stopping at the counted number of flags misses none |
| `TxSort.AppendTxs` | client/network/txpool_sort.go:79-96 | all whose last missing parent has come come in, recursively, and the deferred lists stay right |
| `TxSort.NoneStuck` | client/network/txpool_sort.go:98-115 | a transaction none of whose ancestors waits is in |
| `TxSort.SortingDone` | client/network/txpool_sort.go:109-113 | every transaction has come in exactly once: the complaint is out of reach |
| `TxSort.GetSortedMempool` | client/network/txpool_sort.go:18-115 | every transaction once, behind its parents; sorted by fee for weight where products fit 64 bits, each one as soon as its last ancestor has had its turn |
| `FeeOrders.PaysInOrder` | client/network/txpool_sort.go:26-43 | the order by fee, in fees and weights: an earlier transaction pays more for its weight than a later one, or as much with no more inputs from the pool |
| `FeeOrders.TurnsInOrder` | client/network/txpool_sort.go:17-115 | in the result, of the later of two transactions and its ancestors one pays no more for its weight than the earlier one and each of its ancestors |
| `FeeOrders.LooseInOrder` | client/network/txpool_sort.go:17-115 | in the result, transactions without parents in the pool are sorted by fee for weight, then by inputs from the pool |
| `TxSort.ReadyNow` | client/network/txpool_sort.go:98-107 | after each turn just those are in all of whose ancestors have had theirs |
| `TxSort.RicherPassedOn` | client/network/txpool_sort.go:27-46 | the comparison is a weak order where the products fit 64 bits |
| `TxSort.SortSlice` | client/network/txpool_sort.go:27-46 | what sort.Slice gives: a permutation, sorted if the comparison is a weak order |
| `TxPackages.LookForPackages` | client/network/txpool_sort.go:510-530 | one package for each transaction with children and without pool parents: its whole component, parents first, with its weight and fee; the better ones first |
| `TxPackages.HeadsMore` | client/network/txpool_sort.go:517-527 | a component has more than one member exactly when its head has a child |
| `TxPackages.AnyIn` | client/network/txpool_sort.go:501-508 | whether a member is on the list |
| `TxPackages.GetSortedMempoolNew` | client/network/txpool_sort.go:557-595 | every transaction once, behind its parents, for all fees, weights and orders; made of whole packages and single transactions in the order of GetSortedMempool, and no package comes after anything it pays better than, unless something of it was out |
| `TxPackages.NextIsBest` | client/network/txpool_sort.go:566-592 | looking at the next package only is enough |
| `FeeOrders.PackagesInOrder` | client/network/txpool_sort.go:526-530 | packages are sorted by their fees for their weights |
| `FeeOrders.UnitsInOrder` | client/network/txpool_sort.go:557-600 | where a transaction or package comes out, any package that pays more for its weight has something out before |
| `TxPackages.LimitPoolSize` | client/network/txpool_sort.go:118-160 | below the limit nothing changes; otherwise the shortest tail of that order that brings the size to 31/32 of the limit goes, and nothing else |
| `TxPackages.DescendantsBehind` | client/network/txpool_sort.go:153-160 | what descends from a transaction stands behind it in the order: evicting from the end takes nothing else along |
| `TxAccept.HandleNetTx` | client/network/txpool_core.go:237-551 | accepted if and only if inputs, replacement limits, fee and scripts are right; then all it conflicts with and their descendants leave, it comes in with size, fee, weight and finality as given, and the invariant holds if and only if none of its own parents was among those; refused, nothing changes |
| `TxAccept.CheckInputs` | client/network/txpool_core.go:270-408 | goes through if and only if every input is there, mature and allowed and at most 100 non-final transactions are replaced; the flags and sums are right |
| `TxAccept.AddConflict` | client/network/txpool_core.go:278-320 | one conflict and its descendants join the list, or the limit is exceeded |
| `TxAccept.CheckFee` | client/network/txpool_core.go:410-448 | the fee rules in 64-bit arithmetic |
| `TxAccept.Judge` | client/network/txpool_core.go:270-480 | accepted if and only if inputs, replacement limits, fee and scripts are right; what leaves, the marks and the fee are then known |
| `PoolCoins.InputIsCoin` | client/network/txpool_core.go:331-407 | an input is let through if and only if it is a coin of the records or an output of a transaction in the pool, mature, and may come from there; it then counts with that coin's value |
| `PoolCoins.SumOfCoins` | client/network/txpool_core.go:331-408 | what the inputs add up to is the value of those coins |
| `PoolCoins.FeeIsLost` | client/network/txpool_core.go:410-425 | where the sums fit 64 bits, an accepted transaction with a new id lowers the total value of records and pool by exactly the fee filed with it |
| `PoolCoins.FeeIsEnough` | client/network/txpool_core.go:415-448 | nothing accepted spends more than its inputs; nothing from elsewhere pays less than the minimum fee, or replaces others without paying more for its weight than all of them together and than one of them alone, where 64 bits are enough |
| `TxAccept.DeleteReplaced` | client/network/txpool_core.go:495-501 | deleting the list one by one, in any order and without children, takes away just the list and keeps the invariant in the end |
| `TxAccept.Insert` | client/network/txpool_core.go:503-522 | all three views take the new transaction in; only its own marks can be wrong then |
| `TxAccept.TakeIn` | client/network/txpool_core.go:495-522 | the replaced ones leave and the newcomer comes in; the invariant holds afterwards if and only if no parent of the newcomer was replaced |
| `TxAccept.MarkedFits` | client/network/txpool_core.go:322-345 | the marks set before the replaced ones leave are right afterwards if and only if none of those was a parent |
| `TxAccept.OwnParent` | client/network/txpool_core.go:237-551 | two transactions, the second of which replaces its parent, leave a pool without the invariant |
| `PoolRun.Run` | client/network/txpool_core.go:237-551 | the invariant holds through any sequence of arriving transactions, mined blocks, evictions and deletions, up to and not after one that comes in and replaces a parent of its own, which is shown |
| `TxAccept.ReplacedClosed` | client/network/txpool_core.go:495-501 | whoever spends from a replaced transaction is replaced |
| `VarInt.PutULe` | lib/btc/funcs.go:46-64 | writes the encoding behind what is there, and says how long it is |
| `VarInt.VLenSize` | lib/btc/funcs.go:67-78 | exactly the length of the encoding |
| `VarInt.VarBytesAre` | lib/btc/funcs.go:46-64 | bytes are the encoding of a number if and only if they have the length and the mark for its size, and the number at their places, lowest first |
| `VarInt.ReadBack` | lib/btc/funcs.go:106-126 | VULe gives back any 64-bit number and its length, whatever follows |
| `VarInt.CompressAmount` | lib/btc/funcs.go:477-493 | 64-bit arithmetic gives the packed value for amounts up to 1.8*10^18 |
| `VarInt.DecompressAmount` | lib/btc/funcs.go:495-519 | 64-bit arithmetic gives the unpacked value wherever that fits |
| `VarInt.UnpackPack` | lib/btc/funcs.go:477-519 | unpacking undoes packing, for every natural number |
| `VarInt.AmountRoundTrip` | lib/btc/funcs.go:477-519 | DecompressAmount gives back what CompressAmount was given, far beyond all the coins there can be |
| `Scripts.ScriptRoundTrip` | lib/script/misc.go:297-358 | what comes back of a script is the script itself if and only if, where it pays to an uncompressed key of the curve, both coordinates are below P; nothing else is excluded |
| `Scripts.CompressedForms` | lib/script/misc.go:297-320 | bytes are the compressed form of a script if and only if the script is one of the four kinds that have one, with just those bytes of its hash or key |
| `Scripts.CompressedLength` | lib/script/misc.go:297-358 | a compressed script tells its own length |
| `Scripts.KeyRoundTrip` | lib/secp256k1/xy.go:21-156 | completing the x coordinate and the parity gives an uncompressed key back if and only if x and y are below P |
| `Scripts.LargeX` | lib/script/misc.go:297-358 | a valid key with x = P + 1 does not come back |
| `Scripts.LargeY` | lib/script/misc.go:297-358 | a valid key with y = P + 1 does not come back |
| `UtxoCodec.ComesBack` | lib/utxo/unspent_recc.go:78-258 | a record comes back if and only if it is in the plain form or all its scripts are reduced |
| `UtxoCodec.LargeKeyRecord` | lib/utxo/unspent_recc.go:78-258 | a record, with any height and value, that does not come back |
| `UtxoCodec.Serialize` | lib/utxo/unspent_recc.go:176-258 | nothing for a record without outputs; otherwise a buffer of exactly the length computed first, filled with the record's bytes, plain or compressed |
| `UtxoCodec.Measure` | lib/utxo/unspent_recc.go:200-226 | the first pass gives the exact length |
| `UtxoCodec.WriteOuts` | lib/utxo/unspent_recc.go:241-256 | the second pass writes exactly the outputs' bytes |
| `UtxoCodec.NewUtxoRec` | lib/utxo/unspent_recc.go:78-118 | parsing a serialized record gives the transaction id and the record with its scripts as they come back, which `UtxoCodec.ComesBack` shows to be the record itself exactly if they are reduced |
| `UtxoCodec.FullUtxoRec` | lib/utxo/unspent_recc.go:20-24 | the same for the form with the whole id |
| `UtxoCodec.OneUtxoRec` | lib/utxo/unspent_recc.go:120-174 | with its early exit, what the full parse says of output vout |
| `UtxoCodec.Static.NewUtxoRecStatic` | lib/utxo/unspent_recc.go:26-76 | whatever was parsed before into the shared lists, the same record as the full parse |
| `UtxoCodec.ReadOut` | lib/utxo/unspent_recu.go:83-97 | one output is read back, its script as it comes back, and the cursor is at the next |
| `UtxoCodec.NextOut` | lib/utxo/unspent_recu.go:83-97 | the bytes from any output on begin with the next unspent one |
| `Merkle.CalcMerkle` | lib/btc/funcs.go:128-155 | the in-place loop gives the root of the tree with the last node doubled at odd levels, and the flag if and only if two different nodes of a pair are equal somewhere |
| `Merkle.RootDetermines` | lib/btc/block.go:212-232 | under a collision-free pair hash, same height, same root and no flag mean the same list |
| `Merkle.DifferentUnmutated` | lib/btc/funcs.go:137-139 | under a collision-free pair hash, leaves that are all different never set the flag |
| `Merkle.FlagNeeded` | lib/btc/block.go:212-218 | without the flag the root does not determine the list, whatever the hash |
| `MedianTime.GetMedianTimePast` | lib/chain/chain_tree.go:136-147 | the median of the last eleven times, or of all there are |
| `MedianTime.MedianUnique` | lib/chain/chain_tree.go:136-147 | a list has one median only |
| `MedianTime.PreCheckTime` | lib/chain/block_check.go:82-87 | passes if and only if the time is later than the parent's median |
| `MedianTime.MedianMonotone` | lib/chain/block_check.go:82-87 | the median never decreases along a path whose blocks passed, short windows included |
| `MedianTime.IsFinal` | lib/btc/tx.go:363-385 | final if and only if the lock time has passed or is 0, or all sequence numbers are final |
| `MedianTime.FinalFrom` | lib/btc/tx.go:363-385 | with an input that is not final, a lock time below 500000000 waits for the next height after it, any other for the next second |
| `MedianTime.StaysFinal` | lib/chain/block_check.go:206-210 | a transaction final by height and median time is final in every descendant block |
| `MultiSig.CheckMultiSig` | lib/script/script.go:1124-1151 | with good encodings, succeeds if and only if the signatures can be assigned to verifying keys in order |
| `MultiSig.TakeBoth` | lib/script/script.go:1137-1140 | taking the last signature and the last key together loses no assignment |
| `MultiSig.DropKey` | lib/script/script.go:1142-1143 | a key the last signature does not verify under is of no use |
| `MultiSig.Reorder` | wallet/multisig.go:49-95 | keeps signatures that are assigned to keys in order, no more than needed without -xtramsigs, and is fully signed if and only if enough keys have a signature |
| `MultiSig.ReorderThenCheck` | wallet/multisig.go:49-95 | what it leaves fully signed makes the matching loop succeed; where it does not, no choice and order of the signatures would |
| `MultiSig.FewGoodKeys` | wallet/multisig.go:59-77 | no assignment uses more keys than have a good signature |
| `PeerStream.Connection.AppendToSendBuffer` | client/network/core.go:398-407 | the bytes come behind the unsent ones, around the buffer's end if need be, and nothing unsent is overwritten |
| `PeerStream.RingAppend` | client/network/core.go:398-407 | writing behind the bytes of the ring leaves those alone |
| `PeerStream.Connection.SendRawMsg` | client/network/core.go:343-395 | accepted if and only if the message fits without filling the buffer; then header and payload follow the unsent bytes |
| `PeerStream.Connection.WriterLook` | client/network/core.go:620-642 | how much there is to write up to the buffer's end |
| `PeerStream.Connection.WriterWrite` | client/network/core.go:644-644 | the socket takes the first unsent bytes, while the sender goes on |
| `PeerStream.Connection.WriterAdvance` | client/network/core.go:645-650 | just the bytes written leave the buffer |
| `PeerStream.HeaderParts` | client/network/core.go:474-577 | the parser's reading of a header gives command, length and checksum back |
| `PeerStream.NextMessage` | client/network/core.go:474-607 | what has been read after k messages is the beginning of message k+1 |
| `PeerStream.Connection.ReadHeader` | client/network/core.go:478-527 | any number of bytes of the header at a time; never a bad magic |
| `PeerStream.Connection.ReadBody` | client/network/core.go:529-600 | any number of bytes of the payload at a time; the message is returned exactly when it is complete, and is the next one sent; never too big, never a bad checksum |
| `PeerStream.Connection.FetchMessage` | client/network/core.go:474-607 | loses nothing, makes progress when something is there, and returns a message that is there if the reads go far enough |
| `PeerStream.Connection.Run` | client/network/core.go:343-659 | for every interleaving of sender, writing thread and reader and every chunking: what is received is a prefix of what was accepted, in order |
| `PeerStream.Connection.AllArrived` | client/network/core.go:343-659 | with buffer, wire and parser empty, all that was accepted has been received |
| `PeerStream.Connection.Drain` | client/network/core.go:343-659 | from any state, writer and reader left to themselves deliver all that was accepted: nothing gets stuck |

## Left out

- The associativity of point addition, the primality of P (`PointLaws` asks for the inverses it needs), and that the endomorphism (x, y) -> (beta*x, y) multiplies by lambda: `Ecmult` takes an abstract group, and `Jacobian` is proved against the affine chord and tangent law.
- `mul_lambda`, the making of the tables for G, SetB32, GetB32, Inv and Sqrt of the field; field_10x26.go, the other build of the field.
- Field5x52.Field.SetAdd: magnitudes up to 1000 only (as are MulInt and Negate), where limbs could take twice that; the program stays below 20.
- Field5x52.Field.Normalize: limbs up to 2^63, where a little more would still not overflow; every magnitude up to 1000 is within it.
- Wnaf.EcmultWnaf: windows of 2 to 64 bits, for the others see `Wnaf.WindowExact`.
- SHA-256, signatures and scripts: uninterpreted functions, collision-free where a property says so.
- Chain.Chain.ParseTillBlock: the retry is cut off by a fuel parameter where nodes without data make it go round for ever; with data everywhere the cut is never reached.
- Chain.Chain.MoveToBlock: AbortNow may be found set at any look, or never, as a constant of the chain says; the times of its change are not modelled.
- Chain.Chain.CommitBlock: whether the block has more proof of work is a parameter; the float sums of MorePOW are not modelled. It is for nodes of the tree: the data of a block above a refused one, whose node only the index has, is not committed in the model.
- The failures of NewBlock and BuildTxList on stored data; the bytes of the block files, their compression and removal, the cache of blocks, the invalid flag in the file, which only a reload looks at, and that reload.
- The callbacks for mined and undone blocks and for hashes taken away.
- CommitTxs.CommitTxs: which transactions are trusted is one function for the life of a chain, where TrustedTxChecker looks at the pool of the moment; the sums of a block are required to fit 64 bits, which nothing in the code checks; the sigop count, 32 bits wide in the code, is a natural number.
- UnspentDb.UnspentDB.UndoBlockTxs: the database and the undo file hold records, not their bytes; `UtxoCodec` proves that those come back, in the compressed form exactly where their scripts are reduced.
- UTXO_PURGE_UNSPENDABLE, which is off; saving and loading the database, memory management, and the mutexes, whose critical sections are the steps of `UnspentDb.UnspentDB.Commit`.
- Balance.Balances.Follow: the five maps of balances are one, keyed by kind and address; switching the index on between blocks is `Chain.Chain.ToldSince`.
- Mempool.Pool.TxMined: the rejected, pending and waiting lists and the retries they cause are not modelled; transactions are named by id instead of by pointer.
- BlockUndone and MarkChildrenForMem, which counts an input again that is marked already, so that the invariant need not survive it.
- TransactionsToSendWeight, the times and counters of the pool, GetMempoolFees, and the minimum fee that LimitPoolSize sets; the 64-bit size counter is a natural number, which the sum of sizes bounds.
- TxSort.GetSortedMempool: the order by fee is stated where the 64-bit products fit; where they wrap around, only that every transaction comes once, behind its parents and as soon as its last ancestor has had its turn.
- TxAccept.HandleNetTx: the minimum fee, the height and whether the scripts pass are parameters; reasons for refusal are one answer; routing is left out.
- UtxoCodec.Serialize: the caller's own buffer, the pools behind the compressed forms and Memory_Malloc are left out.
- MultiSig.CheckMultiSig: the script opcodes around the loop, and the script code a signature covers, are one fixed `Checker`.
- MedianTime.PreCheckTime: the other checks of PreCheckBlock and PostCheckBlock; times are a function of the node.
- PeerStream.Connection.Run: disconnects, bans, timeouts, the counters and the limits that pause sending are left out; the checksum is any function of four bytes.
- The remaining opcodes of evalScript, and everything under the text, web and RPC interfaces, peersdb, tools and client/speedups.
