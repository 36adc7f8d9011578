/** Sealed-block lookups: read-only compositions of block and consensus
    lookups into one aggregate. Every underlying lookup is a function from its
    key to a storage result, so a lookup that fails, one that finds nothing and
    one that finds a record are three distinct outcomes, and the `?` operator's
    propagation of failures is visible in each contract. */
module SealedBlocks {
  import opened Wrappers
  import opened Primitives

  type BlockId = Bytes32
  type TxId = Bytes32

  /** `BlockHeight` is a 32-bit unsigned integer. */
  newtype BlockHeight = x: int | 0 <= x < 0x1_0000_0000

  /** The parts of a block whose structure these lookups never inspect. */
  type Header(==)
  type Transaction(==)
  type GenesisInfo(==)
  type PoAInfo(==)

  /** A full block: its header and its transactions. */
  datatype Block = Block(header: Header, transactions: seq<Transaction>)

  /** The `FuelBlocks` record: the header and the ids of the transactions. */
  datatype CompressedBlock = CompressedBlock(header: Header, transactionIds: seq<TxId>)

  datatype Consensus = Genesis(genesis: GenesisInfo) | PoA(poa: PoAInfo)

  /** An entity together with the consensus record that seals it. */
  datatype Sealed<E> = Sealed(entity: E, consensus: Consensus)

  type SealedBlock = Sealed<Block>
  type SealedBlockHeader = Sealed<Header>

  type StorageResult<T> = Result<T, StorageError>

  /** A storage read: it fails, or it finds a record or nothing. */
  type Lookup<!K, V> = K -> StorageResult<Option<V>>

  /** The reads the sealed-block functions combine. */
  datatype Chain = Chain(
    fullBlock: Lookup<BlockId, Block>,                   // the full-block read
    fuelBlocks: Lookup<BlockId, CompressedBlock>,        // the FuelBlocks table
    consensus: Lookup<BlockId, Consensus>,               // the SealedBlockConsensus table
    blockId: Lookup<BlockHeight, BlockId>,               // the height-to-id read
    genesisIds: StorageResult<(BlockHeight, BlockId)>)   // the genesis block's height and id

  /** The read succeeded and found a record. */
  predicate Found<V>(r: StorageResult<Option<V>>) {
    r.Success? && r.value.Some?
  }

  /** The read succeeded and found nothing. */
  predicate Missing<V>(r: StorageResult<Option<V>>) {
    r.Success? && r.value.None?
  }

  /** `get_sealed_block_by_id`: the full block and its consensus record, read in
      that order; a sealed block exactly when both are present. */
  function SealedBlockById(chain: Chain, id: BlockId): (r: StorageResult<Option<SealedBlock>>)
    ensures Found(r) <==> Found(chain.fullBlock(id)) && Found(chain.consensus(id))
    ensures Found(r) ==> r.value.value == Sealed(chain.fullBlock(id).value.value, chain.consensus(id).value.value)
    ensures r.Failure? <==> chain.fullBlock(id).Failure? || chain.consensus(id).Failure?
    ensures chain.fullBlock(id).Failure? ==> r == Failure(chain.fullBlock(id).error)
    ensures chain.fullBlock(id).Success? && chain.consensus(id).Failure? ==> r == Failure(chain.consensus(id).error)
  {
    match chain.fullBlock(id)
    case Failure(e) => Failure(e)
    case Success(block) =>
      match chain.consensus(id)
      case Failure(e) => Failure(e)
      case Success(consensus) =>
        if block.Some? && consensus.Some? then Success(Some(Sealed(block.value, consensus.value)))
        else Success(None)
  }

  /** `get_sealed_block_by_height`: nothing when the height has no block id,
      else the sealed block of that id. */
  function SealedBlockByHeight(chain: Chain, height: BlockHeight): (r: StorageResult<Option<SealedBlock>>)
    ensures Missing(chain.blockId(height)) ==> r == Success(None)
    ensures Found(chain.blockId(height)) ==> r == SealedBlockById(chain, chain.blockId(height).value.value)
    ensures chain.blockId(height).Failure? ==> r == Failure(chain.blockId(height).error)
  {
    match chain.blockId(height)
    case Failure(e) => Failure(e)
    case Success(None) => Success(None)
    case Success(Some(id)) => SealedBlockById(chain, id)
  }

  /** `get_genesis`: the genesis record stored for the genesis block id; an
      absent record, or one of another kind, is a not-found error, never a default. */
  function GetGenesis(chain: Chain): (r: StorageResult<GenesisInfo>)
    ensures r.Success? <==>
      && chain.genesisIds.Success?
      && Found(chain.consensus(chain.genesisIds.value.1))
      && chain.consensus(chain.genesisIds.value.1).value.value.Genesis?
    ensures r.Success? ==> chain.consensus(chain.genesisIds.value.1) == Success(Some(Genesis(r.value)))
    ensures chain.genesisIds.Failure? ==> r == Failure(chain.genesisIds.error)
    ensures chain.genesisIds.Success? && chain.consensus(chain.genesisIds.value.1).Failure? ==>
      r == Failure(chain.consensus(chain.genesisIds.value.1).error)
    ensures chain.genesisIds.Success? && chain.consensus(chain.genesisIds.value.1).Success? && r.Failure? ==>
      r.error == NotFound(SealedBlockConsensus)
  {
    match chain.genesisIds
    case Failure(e) => Failure(e)
    case Success((_, genesisId)) =>
      match chain.consensus(genesisId)
      case Failure(e) => Failure(e)
      case Success(Some(Genesis(genesis))) => Success(genesis)
      case Success(_) => Failure(NotFound(SealedBlockConsensus))
  }

  /** `get_sealed_block_header`: the `FuelBlocks` record's header and the
      consensus record, read in that order; a sealed header exactly when both are present. */
  function SealedBlockHeaderById(chain: Chain, id: BlockId): (r: StorageResult<Option<SealedBlockHeader>>)
    ensures Found(r) <==> Found(chain.fuelBlocks(id)) && Found(chain.consensus(id))
    ensures Found(r) ==> r.value.value == Sealed(chain.fuelBlocks(id).value.value.header, chain.consensus(id).value.value)
    ensures r.Failure? <==> chain.fuelBlocks(id).Failure? || chain.consensus(id).Failure?
    ensures chain.fuelBlocks(id).Failure? ==> r == Failure(chain.fuelBlocks(id).error)
    ensures chain.fuelBlocks(id).Success? && chain.consensus(id).Failure? ==> r == Failure(chain.consensus(id).error)
  {
    match chain.fuelBlocks(id)
    case Failure(e) => Failure(e)
    case Success(block) =>
      match chain.consensus(id)
      case Failure(e) => Failure(e)
      case Success(consensus) =>
        if block.Some? && consensus.Some? then Success(Some(Sealed(block.value.header, consensus.value)))
        else Success(None)
  }

  /** `get_sealed_block_header_by_height`: nothing when the height has no block
      id, else the sealed header of that id. */
  function SealedBlockHeaderByHeight(chain: Chain, height: BlockHeight): (r: StorageResult<Option<SealedBlockHeader>>)
    ensures Missing(chain.blockId(height)) ==> r == Success(None)
    ensures Found(chain.blockId(height)) ==> r == SealedBlockHeaderById(chain, chain.blockId(height).value.value)
    ensures chain.blockId(height).Failure? ==> r == Failure(chain.blockId(height).error)
  {
    match chain.blockId(height)
    case Failure(e) => Failure(e)
    case Success(None) => Success(None)
    case Success(Some(id)) => SealedBlockHeaderById(chain, id)
  }

  /** `get_transactions_on_block`: the transactions of the sealed block, nothing
      when there is no sealed block, and its failure when the read fails. */
  function TransactionsOnBlock(chain: Chain, id: BlockId): (r: StorageResult<Option<seq<Transaction>>>)
    ensures Found(r) <==> Found(SealedBlockById(chain, id))
    ensures Found(r) ==> r.value.value == chain.fullBlock(id).value.value.transactions
    ensures Missing(r) <==> Missing(SealedBlockById(chain, id))
    ensures r.Failure? ==> SealedBlockById(chain, id).Failure? && r.error == SealedBlockById(chain, id).error
  {
    match SealedBlockById(chain, id)
    case Failure(e) => Failure(e)
    case Success(None) => Success(None)
    case Success(Some(sealed)) => Success(Some(sealed.entity.transactions))
  }

  // ---------------------------------------------------------------------------
  // How the lookups relate

  /** When the full-block read and the `FuelBlocks` table agree about a block,
      the sealed header is the sealed block's header with the same consensus. */
  lemma SealedHeaderIsSealedBlockHeader(chain: Chain, id: BlockId)
    requires chain.fullBlock(id).Success? && chain.fuelBlocks(id).Success?
    requires chain.fullBlock(id).value.Some? <==> chain.fuelBlocks(id).value.Some?
    requires Found(chain.fullBlock(id)) ==> chain.fullBlock(id).value.value.header == chain.fuelBlocks(id).value.value.header
    ensures Found(SealedBlockHeaderById(chain, id)) <==> Found(SealedBlockById(chain, id))
    ensures Found(SealedBlockById(chain, id)) ==>
      SealedBlockHeaderById(chain, id).value.value
        == Sealed(SealedBlockById(chain, id).value.value.entity.header, SealedBlockById(chain, id).value.value.consensus)
    ensures SealedBlockHeaderById(chain, id).Failure? <==> SealedBlockById(chain, id).Failure?
  {
  }

  /** A height's sealed block, when there is one, is sealed by the consensus
      record of the id the height maps to. */
  lemma SealedBlockByHeightIsSealedById(chain: Chain, height: BlockHeight)
    requires Found(SealedBlockByHeight(chain, height))
    ensures Found(chain.blockId(height))
    ensures Found(chain.consensus(chain.blockId(height).value.value))
    ensures SealedBlockByHeight(chain, height).value.value.consensus
         == chain.consensus(chain.blockId(height).value.value).value.value
  {
  }

  /** When the genesis record is found and the genesis block is stored, the
      genesis block's sealed form carries exactly that genesis record. */
  lemma GenesisSealsGenesisBlock(chain: Chain)
    requires GetGenesis(chain).Success?
    requires Found(chain.fullBlock(chain.genesisIds.value.1))
    ensures Found(SealedBlockById(chain, chain.genesisIds.value.1))
    ensures SealedBlockById(chain, chain.genesisIds.value.1).value.value.consensus == Genesis(GetGenesis(chain).value)
  {
  }
}
