// The entries of the application catalog (include/tradutorlinux/catalog/app_catalog.hpp).
module Catalog {

  datatype AppEntry = AppEntry(
    id: string, name: string, executablePath: string, prefixPath: string, iconPath: string,
    workingDirectory: string, sha256: string, version: string, createdAt: string,
    args: seq<string>, cpuLimitSeconds: nat, memoryLimitMib: nat)

  predicate SafeChar(c: char) {
    'A' <= c <= 'Z' || 'a' <= c <= 'z' || '0' <= c <= '9' || c == '_' || c == '-' || c == '.'
  }

  predicate IsSafeAppId(id: string) {
    && 0 < |id| <= 128 && id != ['.'] && id != ['.', '.']
    && forall i :: 0 <= i < |id| ==> SafeChar(id[i])
  }

  predicate DistinctIds(apps: seq<AppEntry>) {
    forall i, j :: 0 <= i < j < |apps| ==> apps[i].id != apps[j].id
  }
}
