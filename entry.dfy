/** The key/value record shared by the hash table, its iterator, the record
    stream and the cache (hash_table/entry.hpp). A plain pair. */
module Entries {

  datatype Entry<K, V> = Entry(key: K, value: V)
}
