/** The command lines the wrapper hands to the shell, built by string
    concatenation exactly as azure_cli.py builds them. No argument is quoted
    or escaped: each parameter is pasted into the text as it is. */
module Commands {

  /** azure_cli.py:28, the probe for the az executable. */
  const AzLookupCommand: string := "command -v az"

  /** azure_cli.py:40. */
  function LoginCommand(appid: string, tenantid: string, password: string): string
  {
    "az login --service-principal " + "-u " + appid + " --tenant " + tenantid + " --password " + password
  }


  /** azure_cli.py:48-49. */
  function CreateStorageAccountCommand(storagekind: string, resourcegroup: string, location: string, storageaccountname: string): string
  {
    "az storage account create " + "--kind " + storagekind + " --name " + storageaccountname + " --location " + location
      + " --resource-group " + resourcegroup
  }


  /** azure_cli.py:61. */
  function StorageAccountUrlCommand(storageaccountname: string, resourcegroup: string, storagetype: string): string
  {
    "az storage account show " + "--name " + storageaccountname + " --resource-group " + resourcegroup + " --query "
      + "primaryEndpoints." + storagetype
  }

  /** The URL query in one piece: the account name, the resource group and
      the storage type each appear once, in that order, after fixed text. */
  lemma StorageAccountUrlCommandText(storageaccountname: string, resourcegroup: string, storagetype: string)
    ensures StorageAccountUrlCommand(storageaccountname, resourcegroup, storagetype)
         == "az storage account show --name " + storageaccountname + " --resource-group " + resourcegroup
            + " --query primaryEndpoints." + storagetype
  {
    assert "az storage account show " + "--name " == "az storage account show --name ";
    assert " --query " + "primaryEndpoints." == " --query primaryEndpoints.";
    var head := "az storage account show --name " + storageaccountname + " --resource-group " + resourcegroup;
    assert head + " --query " + "primaryEndpoints." == head + (" --query " + "primaryEndpoints.");
  }


  /** azure_cli.py:69. */
  function StorageConnectionStringCommand(storageaccountname: string, resourcegroup: string): string
  {
    "az storage account show-connection-string" + " --name " + storageaccountname + " --resource-group " + resourcegroup
  }


  /** azure_cli.py:82. */
  function SqlConnectionStringCommand(databasename: string, client: string, servername: string): string
  {
    "az sql db show-connection-string" + " --client " + client + " --name " + databasename + " --server " + servername
  }


  /** azure_cli.py:115. */
  function StorageAccountKeysCommand(storageaccountname: string, resourcegroup: string): string
  {
    "az storage account keys list" + " --account-name " + storageaccountname + " --resource-group " + resourcegroup
  }

}
