/** The maps pinned by the kernel programs of `bpf_broker` and written by its
    daemon. */
module Maps {
  import opened Words
  import opened TopicKey

  const MAX_TOPIC_ID := 10
  const INNER_ENTRIES := 256

  class SharedMaps {
    var subs: map<Key, set<U64>>   // topic_subscribe, with its inner sets
    var count: map<Key, U32>       // topic_sub_cnt
    var first: map<Key, U64>       // topic_first_sub

    constructor ()
      ensures subs == map[] && count == map[] && first == map[]
    {
      subs, count, first := map[], map[], map[];
    }
  }
}
